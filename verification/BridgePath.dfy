/** The two bridge-path builders: ancestry by device path, and the climb along
    secondary bus numbers. */
module BridgePath {
  import opened Basics

  /** One enumerated function.  The bus registers matter for a bridge only. */
  datatype Record = Record(
    locationValid: bool, bridge: bool, segment: nat, bus: nat,
    primary: nat, secondary: nat, subordinate: nat, path: Option<seq<u8>>)
  {
    /** DevicePathSize; zero without a path. */
    function Size(): nat {
      if path.None? then 0 else |path.value|
    }

    predicate UsableBridge(on: nat) {
      locationValid && bridge && segment == on
    }
  }

  type Inventory = seq<Record>

  datatype Status = Success | NotFound | NoMapping | CompromisedData

  const END_LENGTH: nat := 4
  const NODE_HEADER: nat := 4

  // -------------------------------------------------------------------- ancestry

  /** The candidate's path, without its end node, begins the selected path. */
  predicate StrictPrefix(candidate: Record, selected: Record) {
    && candidate.path.Some? && selected.path.Some?
    && candidate.Size() > END_LENGTH && selected.Size() > candidate.Size()
    && candidate.path.value[..candidate.Size() - END_LENGTH] == selected.path.value[..candidate.Size() - END_LENGTH]
  }

  predicate Ancestor(inventory: Inventory, selected: Record, i: nat) {
    i < |inventory| && inventory[i].UsableBridge(selected.segment) && StrictPrefix(inventory[i], selected)
  }

  ghost predicate Distinct(s: seq<nat>) {
    forall i, j :: 0 <= i < j < |s| ==> s[i] != s[j]
  }

  ghost predicate InRange(s: seq<nat>, n: nat) {
    forall i :: 0 <= i < |s| ==> s[i] < n
  }

  ghost predicate Sorted(inventory: Inventory, s: seq<nat>)
    requires InRange(s, |inventory|)
  {
    forall i, j :: 0 <= i < j < |s| ==> inventory[s[i]].Size() <= inventory[s[j]].Size()
  }

  // --------------------------------------------------------------------- sorting

  ghost function Inserted(s: seq<nat>, k: nat, outer: nat): seq<nat>
    requires k <= outer < |s|
  {
    s[..k] + [s[outer]] + s[k..outer] + s[outer + 1..]
  }

  lemma InsertedIsPermutation(s: seq<nat>, k: nat, outer: nat)
    requires k <= outer < |s|
    ensures multiset(Inserted(s, k, outer)) == multiset(s)
  {
    assert s == s[..k] + s[k..outer] + [s[outer]] + s[outer + 1..];
  }

  /** Where the insertion step stops: larger elements after k, none before. */
  ghost predicate InsertionPoint(inventory: Inventory, s: seq<nat>, k: nat, outer: nat)
    requires InRange(s, |inventory|) && k <= outer < |s|
  {
    && (forall i :: k <= i < outer ==> inventory[s[i]].Size() > inventory[s[outer]].Size())
    && (k > 0 ==> inventory[s[k - 1]].Size() <= inventory[s[outer]].Size())
  }

  lemma InsertionSorts(inventory: Inventory, s: seq<nat>, k: nat, outer: nat)
    requires InRange(s, |inventory|) && k <= outer < |s|
    requires Sorted(inventory, s[..outer]) && InsertionPoint(inventory, s, k, outer)
    ensures var t := Inserted(s, k, outer);
      InRange(t, |inventory|) && Sorted(inventory, t[..outer + 1])
  {
    var t := Inserted(s, k, outer);
    assert InRange(t, |inventory|);
    var u := t[..outer + 1];
    forall i, j | 0 <= i < j < |u| ensures inventory[u[i]].Size() <= inventory[u[j]].Size() {
      var a, b := Origin(i, k, outer), Origin(j, k, outer);
      assert u[i] == s[a] && u[j] == s[b];
      var below := s[..outer];
      if i < k {
        assert below[i] == s[i] && below[k - 1] == s[k - 1];
        if j > k || j < k {
          assert below[b] == s[b];
        }
      } else if i > k {
        assert below[a] == s[a] && below[b] == s[b];
      }
    }
  }

  function Origin(i: nat, k: nat, outer: nat): nat
    requires k <= outer
  {
    if i < k then i else if i == k then outer else if i <= outer then i - 1 else i
  }

  /** One insertion step, in place. */
  method InsertOne(inventory: Inventory, indices: array<nat>, outer: nat) returns (k: nat)
    requires outer < indices.Length && InRange(indices[..], |inventory|)
    modifies indices
    ensures k <= outer && indices[..] == Inserted(old(indices[..]), k, outer)
    ensures InsertionPoint(inventory, old(indices[..]), k, outer)
  {
    ghost var s := indices[..];
    var value := indices[outer];
    k := outer;
    while k > 0 && inventory[indices[k - 1]].Size() > inventory[value].Size()
      invariant k <= outer
      invariant forall i :: 0 <= i < k ==> indices[i] == s[i]
      invariant forall i :: k < i <= outer ==> indices[i] == s[i - 1]
      invariant forall i :: outer < i < indices.Length ==> indices[i] == s[i]
      invariant forall i :: k <= i < outer ==> inventory[s[i]].Size() > inventory[value].Size()
    {
      indices[k] := indices[k - 1];
      k := k - 1;
    }
    indices[k] := value;
    assert forall i :: 0 <= i < indices.Length ==> indices[i] == Inserted(s, k, outer)[i];
  }

  /** The in-place insertion sort of the first count indices. */
  method SortBySize(inventory: Inventory, indices: array<nat>)
    requires InRange(indices[..], |inventory|)
    modifies indices
    ensures InRange(indices[..], |inventory|) && Sorted(inventory, indices[..])
    ensures multiset(indices[..]) == multiset(old(indices[..]))
  {
    ghost var start := multiset(indices[..]);
    var outer := 1;
    assert indices.Length > 0 ==> |indices[..][..1]| == 1;
    while outer < indices.Length
      invariant 1 <= outer && InRange(indices[..], |inventory|) && multiset(indices[..]) == start
      invariant outer <= indices.Length ==> Sorted(inventory, indices[..][..outer])
      invariant outer > indices.Length ==> indices.Length == 0
    {
      ghost var s := indices[..];
      var k := InsertOne(inventory, indices, outer);
      InsertionSorts(inventory, s, k, outer);
      InsertedIsPermutation(s, k, outer);
      outer := outer + 1;
    }
    assert indices.Length > 0 ==> indices[..][..outer] == indices[..];
  }

  // ------------------------------------------------------------------ the builder

  function NodeLength(path: seq<u8>, offset: nat): nat
    requires offset + NODE_HEADER <= |path|
  {
    path[offset + 2] as int + 256 * (path[offset + 3] as int)
  }

  predicate IsPciNode(path: seq<u8>, offset: nat)
    requires offset + NODE_HEADER <= |path|
  {
    path[offset] == 1 && path[offset + 1] == 1
  }

  predicate IsEndNode(path: seq<u8>, offset: nat)
    requires offset + NODE_HEADER <= |path|
  {
    path[offset] == 0x7F && path[offset + 1] == 0xFF
  }

  /** The number of PCI nodes from an offset on; None for a malformed node. */
  function PciNodes(path: seq<u8>, offset: nat): Option<nat>
    decreases |path| - offset
  {
    if offset + NODE_HEADER > |path| then Some(0)
    else if NodeLength(path, offset) < NODE_HEADER || offset + NodeLength(path, offset) > |path| then None
    else
      var here := if IsPciNode(path, offset) then 1 else 0;
      if IsEndNode(path, offset) then Some(here)
      else AddNodes(here, PciNodes(path, offset + NodeLength(path, offset)))
  }

  function AddNodes(count: nat, more: Option<nat>): Option<nat> {
    match more
    case None => None
    case Some(n) => Some(count + n)
  }

  method CountPciNodes(path: seq<u8>) returns (r: Option<nat>)
    ensures r == PciNodes(path, 0)
  {
    var count, offset: nat, ended := 0, 0, false;
    while !ended && offset + NODE_HEADER <= |path|
      invariant ended ==> PciNodes(path, 0) == Some(count)
      invariant !ended ==> PciNodes(path, 0) == AddNodes(count, PciNodes(path, offset))
      decreases !ended, |path| - offset
    {
      var size := NodeLength(path, offset);
      if size < NODE_HEADER || size > |path| - offset {
        return None;
      }
      if IsPciNode(path, offset) {
        count := count + 1;
      }
      ended := IsEndNode(path, offset);
      offset := offset + size;
    }
    r := Some(count);
  }

  /** One node of a device path. */
  datatype Node = Node(kind: u8, sub: u8, data: seq<u8>)

  predicate IsEnd(n: Node) {
    n.kind == 0x7F && n.sub == 0xFF
  }

  /** The bytes of a node: type, subtype, total length, data. */
  function NodeBytes(n: Node): (b: seq<u8>)
    requires |n.data| <= 0xFFFB
    ensures |b| == |n.data| + 4
  {
    [n.kind, n.sub, (|n.data| + 4) % 256, (|n.data| + 4) / 256] + n.data
  }

  function PathBytes(nodes: seq<Node>): seq<u8>
    requires forall n :: n in nodes ==> |n.data| <= 0xFFFB
  {
    if nodes == [] then [0x7F, 0xFF, 4, 0] else NodeBytes(nodes[0]) + PathBytes(nodes[1..])
  }

  function CountPci(nodes: seq<Node>): nat {
    if nodes == [] then 0
    else (if nodes[0].kind == 1 && nodes[0].sub == 1 then 1 else 0) + CountPci(nodes[1..])
  }

  /** Walking the bytes of a path counts its PCI nodes. */
  lemma {:induction false} PathIsCounted(before: seq<u8>, nodes: seq<Node>)
    requires forall n :: n in nodes ==> |n.data| <= 0xFFFB && !IsEnd(n)
    ensures PciNodes(before + PathBytes(nodes), |before|) == Some(CountPci(nodes))
    decreases |nodes|
  {
    var path := before + PathBytes(nodes);
    if nodes == [] {
      assert path[|before|] == 0x7F && path[|before| + 1] == 0xFF;
      assert path[|before| + 2] == 4 && path[|before| + 3] == 0;
    } else {
      var first := NodeBytes(nodes[0]);
      assert nodes[0] in nodes;
      assert forall k :: 0 <= k < 4 ==> path[|before| + k] == first[k];
      assert path == before + first + PathBytes(nodes[1..]);
      PathIsCounted(before + first, nodes[1..]);
      assert NodeLength(path, |before|) == |first|;
    }
  }

  method CollectAncestors(inventory: Inventory, selected: Record) returns (found: seq<nat>)
    ensures Distinct(found) && InRange(found, |inventory|)
    ensures forall i: nat :: i in found <==> Ancestor(inventory, selected, i)
  {
    found := [];
    for index := 0 to |inventory|
      invariant Distinct(found) && InRange(found, index)
      invariant forall i: nat :: i in found <==> i < index && Ancestor(inventory, selected, i)
    {
      if Ancestor(inventory, selected, index) {
        found := found + [index];
      }
    }
  }

  /** A strict path holds exactly the ancestor bridges, once each, in the order of
      their device-path sizes. */
  ghost predicate StrictPath(inventory: Inventory, selected: Record, path: seq<nat>) {
    && Distinct(path) && InRange(path, |inventory|) && Sorted(inventory, path)
    && (forall i: nat :: i in path <==> Ancestor(inventory, selected, i))
  }

  method BuildDevicePath(inventory: Inventory, selected: Record) returns (status: Status, path: seq<nat>)
    ensures status == Success <==>
      selected.path.Some? && PciNodes(selected.path.value, 0) == Some(|path| + 1)
    ensures selected.path.Some? ==> StrictPath(inventory, selected, path)
    ensures status == CompromisedData <==> selected.path.Some? && PciNodes(selected.path.value, 0) == None
  {
    if selected.path.None? {
      return NotFound, [];
    }
    var found := CollectAncestors(inventory, selected);
    var indices := new nat[|found|](i requires 0 <= i < |found| => found[i]);
    assert indices[..] == found;
    SortBySize(inventory, indices);
    path := indices[..];
    PermutationKeeps(found, path);
    var nodes := CountPciNodes(selected.path.value);
    status := if nodes == None then CompromisedData
              else if nodes.value == 0 || |path| + 1 != nodes.value then NotFound else Success;
  }

  lemma PermutationKeeps(a: seq<nat>, b: seq<nat>)
    requires multiset(a) == multiset(b) && Distinct(a)
    ensures |a| == |b| && Distinct(b) && forall i :: i in a <==> i in b
  {
    forall i ensures i in a <==> i in b {
      assert i in a <==> i in multiset(a);
      assert i in b <==> i in multiset(b);
    }
    assert |multiset(a)| == |multiset(b)|;
    forall i, j | 0 <= i < j < |b| ensures b[i] != b[j] {
      DistinctCount(a, b[i]);
      if b[i] == b[j] {
        TwiceCount(b, i, j);
      }
    }
  }

  lemma {:induction false} DistinctCount(a: seq<nat>, x: nat)
    requires Distinct(a)
    ensures multiset(a)[x] <= 1
  {
    if a != [] {
      var init, last := a[..|a| - 1], a[|a| - 1];
      assert a == init + [last];
      DistinctCount(init, x);
      assert last !in init;
    }
  }

  lemma TwiceCount(b: seq<nat>, i: nat, j: nat)
    requires i < j < |b| && b[i] == b[j]
    ensures multiset(b)[b[i]] >= 2
  {
    assert b == b[..j] + [b[j]] + b[j + 1..];
    assert b[i] in multiset(b[..j]) by {
      assert b[..j][i] == b[i];
    }
  }

  /** Sorting by size puts the bridges in nesting order: the path of each one
      begins the path of every later one. */
  lemma SizeOrderIsNesting(inventory: Inventory, selected: Record, path: seq<nat>, i: nat, j: nat)
    requires StrictPath(inventory, selected, path) && i < j < |path|
    ensures var outer, inner := inventory[path[i]], inventory[path[j]];
      && outer.path.Some? && inner.path.Some? && END_LENGTH < outer.Size() <= inner.Size()
      && outer.path.value[..outer.Size() - END_LENGTH] <= inner.path.value[..inner.Size() - END_LENGTH]
  {
    assert path[i] in path && path[j] in path;
    var outer, inner := inventory[path[i]], inventory[path[j]];
    assert StrictPrefix(outer, selected) && StrictPrefix(inner, selected);
    var a, b := outer.Size() - END_LENGTH, inner.Size() - END_LENGTH;
    assert inner.path.value[..b][..a] == selected.path.value[..b][..a] == selected.path.value[..a];
  }

  // ------------------------------------------------------------- the cross-check

  /** The bus just below bridge k of a path. */
  function ChildBus(inventory: Inventory, selected: Record, path: seq<nat>, k: nat): nat
    requires k < |path| && (k + 1 < |path| ==> path[k + 1] < |inventory|)
  {
    if k + 1 < |path| then inventory[path[k + 1]].bus else selected.bus
  }

  predicate Linked(inventory: Inventory, selected: Record, path: seq<nat>, k: nat)
    requires k < |path| && path[k] < |inventory| && (k + 1 < |path| ==> path[k + 1] < |inventory|)
  {
    && inventory[path[k]].primary == inventory[path[k]].bus
    && inventory[path[k]].secondary == ChildBus(inventory, selected, path, k)
  }

  ghost predicate CrossChecked(inventory: Inventory, selected: Record, path: seq<nat>)
    requires InRange(path, |inventory|)
  {
    forall k :: 0 <= k < |path| ==>
      && Linked(inventory, selected, path, k)
      && ChildBus(inventory, selected, path, k) <= inventory[path[k]].subordinate
  }

  method CrossCheck(inventory: Inventory, selected: Record, path: seq<nat>) returns (status: Status)
    requires InRange(path, |inventory|)
    ensures status == Success <==> CrossChecked(inventory, selected, path)
    ensures status == Success || status == NoMapping
  {
    for index := 0 to |path|
      invariant forall k :: 0 <= k < index ==>
        && Linked(inventory, selected, path, k)
        && ChildBus(inventory, selected, path, k) <= inventory[path[k]].subordinate
    {
      var child := ChildBus(inventory, selected, path, index);
      var bridge := inventory[path[index]];
      if bridge.primary != bridge.bus || bridge.secondary != child || child > bridge.subordinate {
        assert !Linked(inventory, selected, path, index) ||
               ChildBus(inventory, selected, path, index) > inventory[path[index]].subordinate;
        return NoMapping;
      }
    }
    status := Success;
  }

  // -------------------------------------------------------------------- the climb

  /** Bridge i leads down to the given bus. */
  predicate Parent(inventory: Inventory, selected: Record, bus: nat, i: nat) {
    && i < |inventory| && inventory[i].UsableBridge(selected.segment)
    && inventory[i].secondary == bus && inventory[i].primary == inventory[i].bus
  }

  ghost predicate OnlyParent(inventory: Inventory, selected: Record, bus: nat, i: nat) {
    Parent(inventory, selected, bus, i) && forall j: nat :: Parent(inventory, selected, bus, j) ==> j == i
  }

  /** The bus reached after a climb (bottom first). */
  function Top(inventory: Inventory, selected: Record, climb: seq<nat>): nat
    requires InRange(climb, |inventory|)
  {
    if climb == [] then selected.bus else inventory[climb[|climb| - 1]].bus
  }

  /** Each bridge is the only one that leads down to the bus reached before it. */
  ghost predicate Climbs(inventory: Inventory, selected: Record, climb: seq<nat>)
    requires InRange(climb, |inventory|)
  {
    && Distinct(climb)
    && forall k :: 0 <= k < |climb| ==> Step(inventory, selected, climb, k)
  }

  ghost predicate Step(inventory: Inventory, selected: Record, climb: seq<nat>, k: nat)
    requires InRange(climb, |inventory|) && k < |climb|
  {
    var bus := Top(inventory, selected, climb[..k]);
    bus != 0 && OnlyParent(inventory, selected, bus, climb[k]) && inventory[climb[k]].bus != bus
  }

  /** Why no climb can succeed: there is nothing to climb, or the climb so far has
      no single, new and higher continuation. */
  ghost predicate Stuck(inventory: Inventory, selected: Record, climb: seq<nat>, status: Status)
    requires InRange(climb, |inventory|)
  {
    var bus := Top(inventory, selected, climb);
    || (status == NotFound && climb == [] && (bus == 0 || |inventory| == 0))
    || (bus != 0 && |climb| < |inventory| && Blocked(inventory, selected, climb, bus, status))
  }

  ghost predicate Blocked(inventory: Inventory, selected: Record, climb: seq<nat>, bus: nat, status: Status) {
    match status
    case Success => false
    case NotFound => forall j: nat :: !Parent(inventory, selected, bus, j)
    case NoMapping => exists i, j :: i < j && Parent(inventory, selected, bus, i) && Parent(inventory, selected, bus, j)
    case CompromisedData =>
      exists i: nat :: Parent(inventory, selected, bus, i) && (inventory[i].bus == bus || i in climb)
  }

  /** A climb that reached bus 0, or used up the inventory. */
  ghost predicate Complete(inventory: Inventory, selected: Record, climb: seq<nat>)
    requires InRange(climb, |inventory|)
  {
    climb != [] && Climbs(inventory, selected, climb) &&
    (Top(inventory, selected, climb) == 0 || |climb| == |inventory|)
  }

  ghost predicate CanClimb(inventory: Inventory, selected: Record) {
    exists climb :: InRange(climb, |inventory|) && Complete(inventory, selected, climb)
  }

  /** A climb is determined by the inventory: of two climbs one begins the other. */
  lemma {:induction false} ClimbsAgree(inventory: Inventory, selected: Record, a: seq<nat>, b: seq<nat>, n: nat)
    requires InRange(a, |inventory|) && InRange(b, |inventory|)
    requires Climbs(inventory, selected, a) && Climbs(inventory, selected, b) && n <= |a| && n <= |b|
    ensures a[..n] == b[..n]
  {
    hide Distinct;
    if n > 0 {
      ClimbsAgree(inventory, selected, a, b, n - 1);
      assert Step(inventory, selected, a, n - 1) && Step(inventory, selected, b, n - 1);
      assert a[..n] == a[..n - 1] + [a[n - 1]] && b[..n] == b[..n - 1] + [b[n - 1]];
    }
  }

  /** A stuck climb leaves no complete one. */
  lemma StuckCannotClimb(inventory: Inventory, selected: Record, climb: seq<nat>, status: Status)
    requires InRange(climb, |inventory|) && Climbs(inventory, selected, climb)
    requires Stuck(inventory, selected, climb, status)
    ensures !CanClimb(inventory, selected)
  {
    forall c: seq<nat> | InRange(c, |inventory|) ensures !Complete(inventory, selected, c) {
      if Climbs(inventory, selected, c) {
        NoFurther(inventory, selected, climb, status, c);
        ClimbsAgree(inventory, selected, climb, c, |c|);
        assert c[..|c|] == c && climb[..|climb|] == climb;
        if |c| < |climb| {
          ClimbedFrom(inventory, selected, climb, |c|);
        }
        ClimbsFit(inventory, selected, climb);
      }
    }
  }

  lemma NoFurther(inventory: Inventory, selected: Record, climb: seq<nat>, status: Status, c: seq<nat>)
    requires InRange(climb, |inventory|) && Climbs(inventory, selected, climb)
    requires Stuck(inventory, selected, climb, status)
    requires InRange(c, |inventory|) && Climbs(inventory, selected, c)
    ensures |c| <= |climb|
  {
    hide Parent;
    var n := |climb|;
    if n < |c| {
      ClimbsAgree(inventory, selected, climb, c, n);
      assert climb[..n] == climb;
      assert Step(inventory, selected, c, n);
      Unvisited(c, n);
    }
  }

  lemma Unvisited(c: seq<nat>, n: nat)
    requires Distinct(c) && n < |c|
    ensures c[n] !in c[..n]
  {
  }

  function Reversed(s: seq<nat>): (r: seq<nat>)
    ensures |r| == |s| && forall i :: 0 <= i < |s| ==> r[i] == s[|s| - 1 - i]
  {
    seq(|s|, i requires 0 <= i < |s| => s[|s| - 1 - i])
  }

  /** The search for a parent bridge; count says how many there are. */
  method FindParent(inventory: Inventory, selected: Record, bus: nat) returns (status: Status, parent: nat)
    ensures status == Success ==> OnlyParent(inventory, selected, bus, parent)
    ensures status == NotFound ==> forall j: nat :: !Parent(inventory, selected, bus, j)
    ensures status == NoMapping ==>
      exists i, j :: i < j && Parent(inventory, selected, bus, i) && Parent(inventory, selected, bus, j)
    ensures status != CompromisedData
  {
    parent := 0;
    var count := 0;
    for index := 0 to |inventory|
      invariant count == 0 ==> forall j: nat :: j < index ==> !Parent(inventory, selected, bus, j)
      invariant count >= 1 ==> parent < index && Parent(inventory, selected, bus, parent)
      invariant count == 1 ==> forall j: nat :: j < index && Parent(inventory, selected, bus, j) ==> j == parent
      invariant count >= 2 ==>
        exists i, j :: i < j && Parent(inventory, selected, bus, i) && Parent(inventory, selected, bus, j)
    {
      if Parent(inventory, selected, bus, index) {
        parent, count := index, count + 1;
      }
    }
    status := if count == 0 then NotFound else if count != 1 then NoMapping else Success;
  }

  lemma ClimbOn(inventory: Inventory, selected: Record, climb: seq<nat>, i: nat)
    requires InRange(climb, |inventory|) && Climbs(inventory, selected, climb) && i !in climb
    requires var bus := Top(inventory, selected, climb);
      bus != 0 && OnlyParent(inventory, selected, bus, i) && inventory[i].bus != bus
    ensures InRange(climb + [i], |inventory|) && Climbs(inventory, selected, climb + [i])
  {
    var more := climb + [i];
    ParentInRange(inventory, selected, Top(inventory, selected, climb), i);
    hide OnlyParent;
    assert InRange(more, |inventory|);
    forall k | 0 <= k < |more| ensures Step(inventory, selected, more, k) {
      assert more[..k] == climb[..k];
      if k < |climb| {
        assert Step(inventory, selected, climb, k);
      } else {
        assert climb[..k] == climb;
      }
    }
  }

  /** The climb.  It succeeds exactly when a complete climb exists, and its path,
      read backwards, is that climb; after a failure the path is the climb so far,
      and the status is the reason why it cannot go on. */
  method BuildBusPath(inventory: Inventory, selected: Record) returns (status: Status, path: seq<nat>)
    ensures InRange(path, |inventory|)
    ensures status == Success <==> CanClimb(inventory, selected)
    ensures status == Success ==> Complete(inventory, selected, Reversed(path))
    ensures status != Success ==> Climbs(inventory, selected, path) && Stuck(inventory, selected, path, status)
  {
    status, path := Climb(inventory, selected);
    if status != Success {
      StuckCannotClimb(inventory, selected, path, status);
      return;
    }
    hide Complete;
    ReversedTwice(path);
    path := ReversedPath(path);
  }

  method ReversedPath(path: seq<nat>) returns (reversed: seq<nat>)
    ensures reversed == Reversed(path)
  {
    var used := new nat[|path|](i requires 0 <= i < |path| => path[i]);
    assert used[..] == path;
    ReverseInPlace(used);
    reversed := used[..];
  }

  /** The upward loop. */
  method Climb(inventory: Inventory, selected: Record) returns (status: Status, climb: seq<nat>)
    ensures InRange(climb, |inventory|) && Climbs(inventory, selected, climb)
    ensures if status == Success then Complete(inventory, selected, climb)
            else Stuck(inventory, selected, climb, status)
  {
    climb := [];
    var bus := selected.bus;
    while bus != 0 && |climb| < |inventory|
      invariant InRange(climb, |inventory|) && Climbs(inventory, selected, climb)
      invariant bus == Top(inventory, selected, climb)
      decreases |inventory| - |climb|
    {
      hide Climbs, OnlyParent, Parent;
      var parent: nat;
      status, parent := FindParent(inventory, selected, bus);
      if status != Success {
        return;
      }
      ParentInRange(inventory, selected, bus, parent);
      if inventory[parent].bus == bus || parent in climb {
        return CompromisedData, climb;
      }
      ClimbOn(inventory, selected, climb, parent);
      climb := climb + [parent];
      bus := inventory[parent].bus;
    }
    ClimbsFit(inventory, selected, climb);
    status := if climb == [] then NotFound else Success;
  }

  lemma ClimbsFit(inventory: Inventory, selected: Record, climb: seq<nat>)
    requires InRange(climb, |inventory|) && Climbs(inventory, selected, climb)
    ensures |climb| <= |inventory|
  {
    ClimbFits(inventory, climb);
  }

  lemma ReversedTwice(s: seq<nat>)
    ensures Reversed(Reversed(s)) == s
  {
  }

  lemma ParentInRange(inventory: Inventory, selected: Record, bus: nat, i: nat)
    requires OnlyParent(inventory, selected, bus, i)
    ensures i < |inventory| && Parent(inventory, selected, bus, i)
  {
  }

  method ReverseInPlace(a: array<nat>)
    modifies a
    ensures a[..] == Reversed(old(a[..]))
  {
    ghost var s := a[..];
    var count := a.Length;
    for index := 0 to count / 2
      invariant forall i :: 0 <= i < index ==> a[i] == s[count - 1 - i] && a[count - 1 - i] == s[i]
      invariant forall i :: index <= i < count - index ==> a[i] == s[i]
    {
      var reverse := count - 1 - index;
      var temporary := a[index];
      a[index] := a[reverse];
      a[reverse] := temporary;
    }
    assert forall i :: 0 <= i < count ==> a[i] == s[count - 1 - i];
  }

  /** Distinct indices of an inventory are no more than the inventory. */
  lemma ClimbFits(inventory: Inventory, s: seq<nat>)
    requires Distinct(s) && InRange(s, |inventory|)
    ensures |s| <= |inventory|
  {
    DistinctInRange(s, |inventory|);
  }

  lemma HeadInRange(s: seq<nat>, n: nat)
    requires InRange(s, n) && s != []
    ensures s[0] < n
  {
  }

  lemma {:induction false} DistinctInRange(s: seq<nat>, n: nat)
    requires Distinct(s) && InRange(s, n)
    ensures |s| <= n
    decreases n
  {
    if s == [] {
      return;
    }
    HeadInRange(s, n);
    if n - 1 in s {
      var k :| 0 <= k < |s| && s[k] == n - 1;
      var t := s[..k] + s[k + 1..];
      assert forall i :: 0 <= i < |t| ==> t[i] == if i < k then s[i] else s[i + 1];
      DistinctInRange(t, n - 1);
    } else {
      assert forall i :: 0 <= i < |s| ==> s[i] in s;
      DistinctInRange(s, n - 1);
    }
  }

  // ----------------------------------------------------- the two paths compared

  /** A bus path is linked from end to end, so its cross-check can only fail on a
      subordinate bus number. */
  lemma BusPathIsLinked(inventory: Inventory, selected: Record, climb: seq<nat>)
    requires InRange(climb, |inventory|) && Climbs(inventory, selected, climb)
    ensures InRange(Reversed(climb), |inventory|) && Distinct(Reversed(climb))
    ensures forall k :: 0 <= k < |climb| ==> Linked(inventory, selected, Reversed(climb), k)
  {
    var path := Reversed(climb);
    forall k | 0 <= k < |climb| ensures Linked(inventory, selected, path, k) {
      var c := |climb| - 1 - k;
      assert Step(inventory, selected, climb, c);
      assert c > 0 ==> climb[..c][c - 1] == climb[c - 1];
    }
  }

  /** A complete climb has reached bus 0 exactly when some record sits on bus 0. */
  lemma ClimbEndsAtRoot(inventory: Inventory, selected: Record, climb: seq<nat>)
    requires InRange(climb, |inventory|) && Complete(inventory, selected, climb)
    ensures Top(inventory, selected, climb) == 0 <==> exists i :: 0 <= i < |inventory| && inventory[i].bus == 0
  {
    if Top(inventory, selected, climb) == 0 {
      assert inventory[climb[|climb| - 1]].bus == 0;
    } else {
      forall i | 0 <= i < |inventory| ensures inventory[i].bus != 0 {
        UsedUp(inventory, climb, i);
        var k :| 0 <= k < |climb| && climb[k] == i;
        if k + 1 < |climb| {
          ClimbedFrom(inventory, selected, climb, k + 1);
        }
      }
    }
  }

  /** Distinct indices as many as the inventory are all of them. */
  lemma UsedUp(inventory: Inventory, climb: seq<nat>, i: nat)
    requires Distinct(climb) && InRange(climb, |inventory|) && |climb| == |inventory| && i < |inventory|
    ensures i in climb
  {
    if i !in climb {
      var more := climb + [i];
      assert Distinct(more);
      ClimbFits(inventory, more);
    }
  }

  /** As the callers use it, for a display taken from the inventory, every
      successful climb has reached bus 0. */
  lemma ClimbReachesRoot(inventory: Inventory, selected: Record, climb: seq<nat>)
    requires InRange(climb, |inventory|) && Complete(inventory, selected, climb)
    requires selected in inventory && !selected.bridge
    ensures Top(inventory, selected, climb) == 0
  {
    var i :| 0 <= i < |inventory| && inventory[i] == selected;
    if |climb| == |inventory| {
      UsedUp(inventory, climb, i);
      var k :| 0 <= k < |climb| && climb[k] == i;
      assert Step(inventory, selected, climb, k);
    }
  }

  /** Every bus below the first bridge of a path is nonzero. */
  ghost predicate NonzeroBelow(inventory: Inventory, selected: Record, path: seq<nat>)
    requires InRange(path, |inventory|)
  {
    forall k :: 0 <= k < |path| ==> ChildBus(inventory, selected, path, k) != 0
  }

  /** The climb follows the strict path from the bottom. */
  ghost predicate Follows(strict: seq<nat>, climb: seq<nat>, n: nat) {
    n <= |climb| && n <= |strict| && forall k :: 0 <= k < n ==> climb[k] == strict[|strict| - 1 - k]
  }

  lemma {:induction false} ClimbFollows(inventory: Inventory, selected: Record, strict: seq<nat>, climb: seq<nat>,
                                        n: nat)
    requires StrictPath(inventory, selected, strict) && CrossChecked(inventory, selected, strict)
    requires NonzeroBelow(inventory, selected, strict)
    requires InRange(climb, |inventory|) && Complete(inventory, selected, climb) && n <= |strict|
    ensures Follows(strict, climb, n)
  {
    hide StrictPath, CrossChecked, NonzeroBelow, Complete, Follows;
    if n > 0 {
      ClimbFollows(inventory, selected, strict, climb, n - 1);
      FollowOn(inventory, selected, strict, climb, n - 1);
    } else {
      FollowNone(strict, climb);
    }
  }

  lemma FollowNone(strict: seq<nat>, climb: seq<nat>)
    ensures Follows(strict, climb, 0)
  {
  }

  lemma FollowTop(inventory: Inventory, selected: Record, strict: seq<nat>, climb: seq<nat>, k: nat)
    requires InRange(strict, |inventory|) && InRange(climb, |inventory|) && k < |strict| && Follows(strict, climb, k)
    ensures Top(inventory, selected, climb[..k]) == ChildBus(inventory, selected, strict, |strict| - 1 - k)
  {
  }

  lemma NextIsForced(inventory: Inventory, selected: Record, climb: seq<nat>, k: nat, bus: nat, parent: nat)
    requires InRange(climb, |inventory|) && Complete(inventory, selected, climb) && k <= |climb| && k < |inventory|
    requires Top(inventory, selected, climb[..k]) == bus && bus != 0 && Parent(inventory, selected, bus, parent)
    ensures k < |climb| && climb[k] == parent
  {
    hide Parent, Distinct;
    assert climb[..|climb|] == climb;
    if |climb| > k {
      assert Step(inventory, selected, climb, k);
    }
  }

  lemma FollowOn(inventory: Inventory, selected: Record, strict: seq<nat>, climb: seq<nat>, k: nat)
    requires StrictPath(inventory, selected, strict) && CrossChecked(inventory, selected, strict)
    requires NonzeroBelow(inventory, selected, strict)
    requires InRange(climb, |inventory|) && Complete(inventory, selected, climb) && k < |strict|
    requires Follows(strict, climb, k)
    ensures Follows(strict, climb, k + 1)
  {
    var at := |strict| - 1 - k;
    var bus := ChildBus(inventory, selected, strict, at);
    StrictParent(inventory, selected, strict, at);
    ClimbFits(inventory, strict);
    assert bus != 0;
    FollowTop(inventory, selected, strict, climb, k);
    hide StrictPath, CrossChecked, NonzeroBelow, ChildBus, Top, Complete, Parent;
    NextIsForced(inventory, selected, climb, k, bus, strict[at]);
  }

  lemma StrictParent(inventory: Inventory, selected: Record, strict: seq<nat>, at: nat)
    requires StrictPath(inventory, selected, strict) && CrossChecked(inventory, selected, strict) && at < |strict|
    ensures Parent(inventory, selected, ChildBus(inventory, selected, strict, at), strict[at])
  {
    assert strict[at] in strict;
    assert Linked(inventory, selected, strict, at);
  }

  /** Where both builders succeed, the strict path is a suffix of the bus path; it
      is the whole bus path if its first bridge sits on bus 0. */
  lemma StrictIsSuffix(inventory: Inventory, selected: Record, strict: seq<nat>, busPath: seq<nat>)
    requires StrictPath(inventory, selected, strict) && CrossChecked(inventory, selected, strict)
    requires NonzeroBelow(inventory, selected, strict)
    requires InRange(busPath, |inventory|) && Complete(inventory, selected, Reversed(busPath))
    ensures |strict| <= |busPath| && busPath[|busPath| - |strict|..] == strict
    ensures strict != [] && inventory[strict[0]].bus == 0 ==> busPath == strict
  {
    var climb := Reversed(busPath);
    ClimbFollows(inventory, selected, strict, climb, |strict|);
    var n := |strict|;
    forall i | 0 <= i < n ensures busPath[|busPath| - n + i] == strict[i] {
      assert climb[n - 1 - i] == strict[i];
    }
    if |climb| > n > 0 {
      assert climb[..n][n - 1] == strict[0];
      ClimbedFrom(inventory, selected, climb, n);
    }
  }

  lemma ClimbedFrom(inventory: Inventory, selected: Record, climb: seq<nat>, k: nat)
    requires InRange(climb, |inventory|) && Climbs(inventory, selected, climb) && k < |climb|
    ensures Top(inventory, selected, climb[..k]) != 0
  {
    assert Step(inventory, selected, climb, k);
  }
}
