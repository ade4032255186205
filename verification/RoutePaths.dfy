/** From the inventory to the classified route: the strict paths of both
    displays, journaled and split.  The facts that classification and transfer
    rely on follow from how the paths are built. */
module RoutePaths {
  import opened Basics
  import opened PathClassification
  import opened BridgePath
  import opened RouteTransfer

  const MAX_BRIDGES: nat := 16

  /** What the plan copies from an inventory record besides its place in the tree:
      the bridge's identity and its bridge-control value. */
  datatype Facts = Facts(id: BridgeId, control: Control)

  ghost predicate DistinctIds(facts: seq<Facts>) {
    forall i, j :: 0 <= i < j < |facts| ==> facts[i].id != facts[j].id
  }

  function Journaled(facts: seq<Facts>, path: seq<nat>): (bridges: seq<Bridge>)
    requires InRange(path, |facts|)
    ensures |bridges| == |path|
    ensures forall i :: 0 <= i < |path| ==> bridges[i] == Bridge(facts[path[i]].id, facts[path[i]].control)
  {
    seq(|path|, i requires 0 <= i < |path| => Bridge(facts[path[i]].id, facts[path[i]].control))
  }

  /** Distinct records give a duplicate-free bridge path. */
  lemma JournaledDistinct(facts: seq<Facts>, path: seq<nat>)
    requires InRange(path, |facts|) && BridgePath.Distinct(path) && DistinctIds(facts)
    ensures PathClassification.Distinct(Journaled(facts, path))
  {
  }

  lemma SameIdSameRecord(facts: seq<Facts>, a: nat, b: nat)
    requires DistinctIds(facts) && a < |facts| && b < |facts| && facts[a].id == facts[b].id
    ensures a == b
  {
  }

  // ------------------------------------------------- the paths of two displays

  function Prefix(r: Record): seq<u8>
    requires r.path.Some? && r.Size() > END_LENGTH
  {
    r.path.value[..r.Size() - END_LENGTH]
  }

  /** No two usable bridges have the same device path. */
  ghost predicate DistinctPaths(inventory: Inventory) {
    forall i, j :: 0 <= i < j < |inventory| && Located(inventory[i]) && Located(inventory[j]) ==>
      Prefix(inventory[i]) != Prefix(inventory[j])
  }

  predicate Located(r: Record) {
    r.bridge && r.path.Some? && r.Size() > END_LENGTH
  }

  /** An ancestor of one display that lies above a common ancestor is an ancestor
      of the other display too. */
  lemma AncestorsAbove(inventory: Inventory, a: Record, t: Record, pa: seq<nat>, k: nat, i: nat)
    requires StrictPath(inventory, a, pa) && k <= i < |pa| && Ancestor(inventory, t, pa[i])
    ensures Ancestor(inventory, t, pa[k])
  {
    assert pa[k] in pa && pa[i] in pa;
    if k < i {
      SizeOrderIsNesting(inventory, a, pa, k, i);
      var outer, inner := inventory[pa[k]], inventory[pa[i]];
      var m, n := outer.Size() - END_LENGTH, inner.Size() - END_LENGTH;
      assert outer.path.value[..m] == inner.path.value[..n][..m];
      assert t.path.value[..n][..m] == t.path.value[..m];
    }
  }

  /** Two ancestors of equal path size are the same record. */
  lemma SameSizeSameRecord(inventory: Inventory, selected: Record, x: nat, y: nat)
    requires DistinctPaths(inventory) && Ancestor(inventory, selected, x) && Ancestor(inventory, selected, y)
    requires inventory[x].Size() == inventory[y].Size()
    ensures x == y
  {
    assert Prefix(inventory[x]) == Prefix(inventory[y]);
  }

  ghost predicate Agree(pa: seq<nat>, pt: seq<nat>, k: nat) {
    k <= |pa| && k <= |pt| && pa[..k] == pt[..k]
  }

  lemma MemberAfter(p: seq<nat>, q: seq<nat>, k: nat) returns (m: nat)
    requires BridgePath.Distinct(q) && k < |q| && k <= |p| && q[..k] == p[..k] && q[k] in p
    ensures k <= m < |p| && p[m] == q[k]
  {
    assert forall x :: 0 <= x < k ==> q[..k][x] == q[x] && p[..k][x] == p[x];
    m :| 0 <= m < |p| && p[m] == q[k];
  }

  lemma AgreeOneMore(inventory: Inventory, a: Record, t: Record, pa: seq<nat>, pt: seq<nat>, i: nat, j: nat, k: nat)
    requires DistinctPaths(inventory) && StrictPath(inventory, a, pa) && StrictPath(inventory, t, pt)
    requires i < |pa| && j < |pt| && pa[i] == pt[j] && k <= i && k <= j && Agree(pa, pt, k)
    ensures Agree(pa, pt, k + 1)
  {
    assert pa[i] in pa && pt[j] in pt && pa[k] in pa && pt[k] in pt;
    AncestorsAbove(inventory, a, t, pa, k, i);
    AncestorsAbove(inventory, t, a, pt, k, j);
    var m := MemberAfter(pt, pa, k);
    var n := MemberAfter(pa, pt, k);
    assert inventory[pt[k]].Size() <= inventory[pt[m]].Size();
    assert inventory[pa[k]].Size() <= inventory[pa[n]].Size();
    SameSizeSameRecord(inventory, a, pa[k], pt[k]);
    assert pa[..k + 1] == pa[..k] + [pa[k]] && pt[..k + 1] == pt[..k] + [pt[k]];
  }

  lemma {:induction false} AgreeUpTo(inventory: Inventory, a: Record, t: Record, pa: seq<nat>, pt: seq<nat>, i: nat,
                                     j: nat, k: nat)
    requires DistinctPaths(inventory) && StrictPath(inventory, a, pa) && StrictPath(inventory, t, pt)
    requires i < |pa| && j < |pt| && pa[i] == pt[j] && k <= i + 1 && k <= j + 1
    ensures Agree(pa, pt, k)
  {
    if k > 0 {
      AgreeUpTo(inventory, a, t, pa, pt, i, j, k - 1);
      AgreeOneMore(inventory, a, t, pa, pt, i, j, k - 1);
    }
  }

  /** A bridge on both strict paths has the same place on both, and everything
      above it is shared. */
  lemma CommonBridge(inventory: Inventory, a: Record, t: Record, pa: seq<nat>, pt: seq<nat>, i: nat, j: nat)
    requires DistinctPaths(inventory) && StrictPath(inventory, a, pa) && StrictPath(inventory, t, pt)
    requires i < |pa| && j < |pt| && pa[i] == pt[j]
    ensures i == j && Agree(pa, pt, i + 1)
  {
    var k := if i < j then i + 1 else j + 1;
    AgreeUpTo(inventory, a, t, pa, pt, i, j, k);
    assert pa[..k][k - 1] == pt[..k][k - 1];
  }

  // ------------------------------------------------------- classification succeeds

  /** Journals taken from one snapshot cannot differ on a shared bridge. */
  lemma SharedJournalsAgree(facts: seq<Facts>, pa: seq<nat>, pt: seq<nat>, n: nat)
    requires DistinctIds(facts) && InRange(pa, |facts|) && InRange(pt, |facts|)
    requires CommonPrefix(Journaled(facts, pa), Journaled(facts, pt), n)
    ensures !DifferentJournals(Journaled(facts, pa), Journaled(facts, pt), n)
  {
    forall i | 0 <= i < n ensures Journaled(facts, pa)[i].original == Journaled(facts, pt)[i].original {
      SameIdSameRecord(facts, pa[i], pt[i]);
    }
  }

  /** Strict paths never rejoin after they have parted. */
  lemma StrictPathsDoNotRejoin(inventory: Inventory, facts: seq<Facts>, a: Record, t: Record, pa: seq<nat>,
                               pt: seq<nat>, n: nat)
    requires DistinctPaths(inventory) && StrictPath(inventory, a, pa) && StrictPath(inventory, t, pt)
    requires DistinctIds(facts) && |facts| == |inventory|
    requires LongestCommonPrefix(Journaled(facts, pa), Journaled(facts, pt), n)
    ensures !Rejoins(Journaled(facts, pa), Journaled(facts, pt), n)
  {
    var active, target := Journaled(facts, pa), Journaled(facts, pt);
    hide StrictPath, DistinctPaths;
    forall i, j | n <= i < |active| && n <= j < |target| ensures active[i].id != target[j].id {
      if active[i].id == target[j].id {
        SharedAbove(inventory, facts, a, t, pa, pt, i, j, n + 1);
      }
    }
  }

  lemma SharedAbove(inventory: Inventory, facts: seq<Facts>, a: Record, t: Record, pa: seq<nat>, pt: seq<nat>,
                    i: nat, j: nat, n: nat)
    requires DistinctPaths(inventory) && StrictPath(inventory, a, pa) && StrictPath(inventory, t, pt)
    requires DistinctIds(facts) && |facts| == |inventory| && i < |pa| && j < |pt| && n <= i + 1
    requires facts[pa[i]].id == facts[pt[j]].id
    ensures CommonPrefix(Journaled(facts, pa), Journaled(facts, pt), n)
  {
    SameIdSameRecord(facts, pa[i], pt[j]);
    CommonBridge(inventory, a, t, pa, pt, i, j);
    AgreeIsCommon(facts, pa, pt, i + 1, n);
  }

  lemma AgreeIsCommon(facts: seq<Facts>, pa: seq<nat>, pt: seq<nat>, k: nat, n: nat)
    requires InRange(pa, |facts|) && InRange(pt, |facts|) && Agree(pa, pt, k) && n <= k
    ensures CommonPrefix(Journaled(facts, pa), Journaled(facts, pt), n)
  {
    forall i | 0 <= i < n ensures pa[i] == pt[i] {
      assert pa[..k][i] == pt[..k][i];
    }
  }

  // ------------------------------------------------------------------ the builder

  /** A path the plan can use: strict, as long as the device path says, agreeing
      with the bus registers, and of at most 16 bridges. */
  ghost predicate GoodPath(inventory: Inventory, selected: Record, path: seq<nat>) {
    && StrictPath(inventory, selected, path)
    && selected.path.Some? && PciNodes(selected.path.value, 0) == Some(|path| + 1)
    && CrossChecked(inventory, selected, path) && |path| <= 16
  }

  /** The strict path of a display, cross-checked and bounded. */
  method BuildValidatedPath(inventory: Inventory, selected: Record) returns (ok: bool, path: seq<nat>)
    ensures ok <==> GoodPath(inventory, selected, path)
    ensures selected.path.Some? ==> StrictPath(inventory, selected, path)
  {
    var status: BridgePath.Status;
    status, path := BuildDevicePath(inventory, selected);
    if status != BridgePath.Success {
      return false, path;
    }
    status := CrossCheck(inventory, selected, path);
    ok := status == BridgePath.Success && |path| <= MAX_BRIDGES;
  }

  /** With distinct device paths a display has only one strict path. */
  lemma StrictPathIsUnique(inventory: Inventory, selected: Record, p: seq<nat>, q: seq<nat>)
    requires DistinctPaths(inventory) && StrictPath(inventory, selected, p) && StrictPath(inventory, selected, q)
    ensures p == q
  {
    SamePlace(inventory, selected, p, q);
    SamePlace(inventory, selected, q, p);
  }

  lemma SamePlace(inventory: Inventory, selected: Record, p: seq<nat>, q: seq<nat>)
    requires DistinctPaths(inventory) && StrictPath(inventory, selected, p) && StrictPath(inventory, selected, q)
    ensures |p| <= |q| && p == q[..|p|]
  {
    if p != [] {
      var i := |p| - 1;
      assert p[i] in p && p[i] in q;
      var j :| 0 <= j < |q| && q[j] == p[i];
      CommonBridge(inventory, selected, selected, p, q, i, j);
      assert p[..|p|] == p;
    }
  }

  /** Every record has a bridge-control register. */
  ghost predicate Known(facts: seq<Facts>, registers: map<BridgeId, Control>) {
    forall i :: 0 <= i < |facts| ==> facts[i].id in registers
  }

  /** The registers of these bridges hold their journaled values. */
  ghost predicate Holding(bridges: seq<Bridge>, registers: map<BridgeId, Control>) {
    forall b :: b in bridges ==> b.id in registers && registers[b.id] == b.original
  }

  /** Journals a path.  A register that has changed since the inventory was taken is
      refused, so the journal is both the snapshot and the live value. */
  method CopyAndJournal(facts: seq<Facts>, path: seq<nat>, registers: map<BridgeId, Control>)
    returns (status: PathClassification.Status, bridges: seq<Bridge>, ghost readFailed: bool)
    requires InRange(path, |facts|) && Known(facts, registers)
    ensures status == PathClassification.Success ==>
      bridges == Journaled(facts, path) && Holding(Journaled(facts, path), registers)
    ensures status != PathClassification.CompromisedData
    ensures !readFailed && Holding(Journaled(facts, path), registers) ==> status == PathClassification.Success
  {
    bridges, readFailed := [], false;
    for index := 0 to |path|
      invariant bridges == Journaled(facts, path)[..index] && Holding(bridges, registers) && !readFailed
    {
      var failed: bool := *;
      if failed {
        readFailed := true;
        return NotReady, bridges, readFailed;
      }
      var live := registers[facts[path[index]].id];
      if live != facts[path[index]].control {
        assert Journaled(facts, path)[index] in Journaled(facts, path);
        return NotReady, bridges, readFailed;
      }
      bridges := bridges + [Bridge(facts[path[index]].id, live)];
    }
    status := PathClassification.Success;
  }

  /** A plan can be made: both displays have a usable path, and the registers of
      both are as the inventory recorded them. */
  ghost predicate Plannable(inventory: Inventory, facts: seq<Facts>, active: Record, target: Record,
                            registers: map<BridgeId, Control>)
    requires |facts| == |inventory|
  {
    Journalable(inventory, facts, active, registers) && Journalable(inventory, facts, target, registers)
  }

  ghost predicate Journalable(inventory: Inventory, facts: seq<Facts>, selected: Record,
                              registers: map<BridgeId, Control>)
    requires |facts| == |inventory|
  {
    exists path :: GoodPath(inventory, selected, path) && Holding(Journaled(facts, path), registers)
  }

  /** Over distinct device paths the path that was built decides. */
  lemma BuiltDecides(inventory: Inventory, facts: seq<Facts>, selected: Record, registers: map<BridgeId, Control>,
                     path: seq<nat>)
    requires |facts| == |inventory| && DistinctPaths(inventory)
    requires selected.path.Some? ==> StrictPath(inventory, selected, path)
    ensures Journalable(inventory, facts, selected, registers) <==>
            GoodPath(inventory, selected, path) && Holding(Journaled(facts, path), registers)
  {
    if Journalable(inventory, facts, selected, registers) {
      var other :| GoodPath(inventory, selected, other) && Holding(Journaled(facts, other), registers);
      StrictPathIsUnique(inventory, selected, path, other);
    }
  }

  /** The classified parts of two strict paths. */
  ghost predicate Split(inventory: Inventory, facts: seq<Facts>, active: Record, target: Record,
                        shared: seq<Bridge>, activeExclusive: seq<Bridge>, targetExclusive: seq<Bridge>)
    requires |facts| == |inventory|
  {
    exists pa, pt ::
      && StrictPath(inventory, active, pa) && StrictPath(inventory, target, pt)
      && Journaled(facts, pa) == shared + activeExclusive && Journaled(facts, pt) == shared + targetExclusive
  }

  /** Builds both paths and classifies them.  Success gives the parts of the two
      strict paths, without a repeated bridge, and none that the target needs among
      those to be disabled.  Over distinct records a rejoining path cannot occur. */
  method BuildAndClassify(inventory: Inventory, facts: seq<Facts>, active: Record, target: Record,
                          registers: map<BridgeId, Control>)
    returns (status: PathClassification.Status, shared: seq<Bridge>, activeExclusive: seq<Bridge>,
             targetExclusive: seq<Bridge>, ghost readFailed: bool)
    requires |facts| == |inventory| && DistinctIds(facts) && Known(facts, registers)
    ensures status == PathClassification.Success ==>
      && Split(inventory, facts, active, target, shared, activeExclusive, targetExclusive)
      && PathClassification.Distinct(activeExclusive + shared + targetExclusive)
      && Ids(activeExclusive) !! Ids(shared + targetExclusive)
      && Holding(activeExclusive + shared + targetExclusive, registers)
    ensures DistinctPaths(inventory) ==> status != PathClassification.CompromisedData
    ensures DistinctPaths(inventory) && !readFailed ==>
      (status == PathClassification.Success <==> Plannable(inventory, facts, active, target, registers))
  {
    hide StrictPath, GoodPath, DistinctPaths, LongestCommonPrefix, DifferentJournals, Rejoins, Journalable, Holding;
    readFailed := false;
    shared, activeExclusive, targetExclusive := [], [], [];
    var ok, pa := BuildValidatedPath(inventory, active);
    if DistinctPaths(inventory) {
      BuiltDecides(inventory, facts, active, registers, pa);
    }
    if !ok {
      return NotReady, shared, activeExclusive, targetExclusive, readFailed;
    }
    StrictFacts(inventory, active, pa);
    var activePath: seq<Bridge>, targetPath: seq<Bridge>;
    status, activePath, readFailed := CopyAndJournal(facts, pa, registers);
    if status != PathClassification.Success {
      return;
    }
    var pt: seq<nat>;
    ok, pt := BuildValidatedPath(inventory, target);
    if DistinctPaths(inventory) {
      BuiltDecides(inventory, facts, target, registers, pt);
    }
    if !ok {
      return NotReady, shared, activeExclusive, targetExclusive, readFailed;
    }
    StrictFacts(inventory, target, pt);
    status, targetPath, readFailed := CopyAndJournal(facts, pt, registers);
    if status != PathClassification.Success {
      return;
    }
    NeverRefused(inventory, facts, active, target, pa, pt);
    status, shared, activeExclusive, targetExclusive := Classify(activePath, targetPath);
    if status == PathClassification.Success {
      JournaledDistinct(facts, pa);
      JournaledDistinct(facts, pt);
      PartsAreDisjoint(activePath, targetPath, shared, activeExclusive, targetExclusive);
      PartsHolding(shared, activeExclusive, targetExclusive, registers);
    }
  }

  lemma PartsHolding(shared: seq<Bridge>, ae: seq<Bridge>, te: seq<Bridge>, registers: map<BridgeId, Control>)
    requires Holding(shared + ae, registers) && Holding(shared + te, registers)
    ensures Holding(ae + shared + te, registers)
  {
    forall b | b in ae + shared + te ensures b.id in registers && registers[b.id] == b.original {
      assert b in shared + ae || b in shared + te;
    }
  }

  lemma StrictFacts(inventory: Inventory, selected: Record, path: seq<nat>)
    requires GoodPath(inventory, selected, path)
    ensures StrictPath(inventory, selected, path) && BridgePath.Distinct(path) && InRange(path, |inventory|)
  {
  }

  /** Neither refusal of the classification can happen. */
  lemma NeverRefused(inventory: Inventory, facts: seq<Facts>, a: Record, t: Record, pa: seq<nat>, pt: seq<nat>)
    requires StrictPath(inventory, a, pa) && StrictPath(inventory, t, pt)
    requires DistinctIds(facts) && |facts| == |inventory|
    ensures exists n: nat :: LongestCommonPrefix(Journaled(facts, pa), Journaled(facts, pt), n)
    ensures forall n: nat :: LongestCommonPrefix(Journaled(facts, pa), Journaled(facts, pt), n) ==>
      && !DifferentJournals(Journaled(facts, pa), Journaled(facts, pt), n)
      && (DistinctPaths(inventory) ==> !Rejoins(Journaled(facts, pa), Journaled(facts, pt), n))
  {
    var active, target := Journaled(facts, pa), Journaled(facts, pt);
    var _ := LongestExists(active, target, 0);
    forall n: nat | LongestCommonPrefix(active, target, n)
      ensures !DifferentJournals(active, target, n) && (DistinctPaths(inventory) ==> !Rejoins(active, target, n))
    {
      SharedJournalsAgree(facts, pa, pt, n);
      if DistinctPaths(inventory) {
        StrictPathsDoNotRejoin(inventory, facts, a, t, pa, pt, n);
      }
    }
  }

  lemma LongestExists(active: seq<Bridge>, target: seq<Bridge>, k: nat) returns (n: nat)
    requires CommonPrefix(active, target, k)
    ensures LongestCommonPrefix(active, target, n)
    decreases |active| - k
  {
    if CommonPrefix(active, target, k + 1) {
      n := LongestExists(active, target, k + 1);
    } else {
      n := k;
    }
  }

  // ----------------------------------------------------------------- the transfer

  /** The route of the target: on for each of its ancestor bridges, off for those
      that only the active display has, and no other bit changed anywhere. */
  ghost predicate Transferred(inventory: Inventory, facts: seq<Facts>, active: Record, target: Record,
                              before: map<BridgeId, Control>, registers: map<BridgeId, Control>)
    requires |facts| == |inventory|
  {
    forall i :: 0 <= i < |facts| ==> RoutedOne(inventory, facts, active, target, before, registers, i)
  }

  ghost predicate RoutedOne(inventory: Inventory, facts: seq<Facts>, active: Record, target: Record,
                            before: map<BridgeId, Control>, registers: map<BridgeId, Control>, i: nat)
    requires |facts| == |inventory| && i < |facts|
  {
    var id := facts[i].id;
    && id in before && id in registers && registers[id].others == before[id].others
    && (Ancestor(inventory, target, i) ==> registers[id].vga)
    && (Ancestor(inventory, active, i) && !Ancestor(inventory, target, i) ==> !registers[id].vga)
    && (!Ancestor(inventory, active, i) && !Ancestor(inventory, target, i) ==> registers[id] == before[id])
  }

  lemma JournaledMember(facts: seq<Facts>, path: seq<nat>, i: nat)
    requires DistinctIds(facts) && InRange(path, |facts|) && i < |facts|
    ensures i in path <==> Bridge(facts[i].id, facts[i].control) in Journaled(facts, path)
    ensures i in path <==> facts[i].id in Ids(Journaled(facts, path))
  {
    var bridges := Journaled(facts, path);
    if i in path {
      var k :| 0 <= k < |path| && path[k] == i;
      assert bridges[k] == Bridge(facts[i].id, facts[i].control) && bridges[k] in bridges;
    }
    if facts[i].id in Ids(bridges) {
      var b :| b in bridges && b.id == facts[i].id;
      var k :| 0 <= k < |bridges| && bridges[k] == b;
      SameIdSameRecord(facts, path[k], i);
    }
  }

  lemma TransferOne(inventory: Inventory, facts: seq<Facts>, active: Record, target: Record, pa: seq<nat>, pt: seq<nat>,
                    shared: seq<Bridge>, ae: seq<Bridge>, te: seq<Bridge>,
                    before: map<BridgeId, Control>, registers: map<BridgeId, Control>, i: nat)
    requires |facts| == |inventory| && DistinctIds(facts) && Known(facts, before) && i < |facts|
    requires StrictPath(inventory, active, pa) && StrictPath(inventory, target, pt)
    requires Journaled(facts, pa) == shared + ae && Journaled(facts, pt) == shared + te
    requires Ids(ae) !! Ids(te) && Holding(ae + shared + te, before)
    requires Holds(registers, ae, false) && Holds(registers, shared, true) && Holds(registers, te, true)
    requires AgreeOutside(registers, before, Ids(ae + shared + te))
    ensures RoutedOne(inventory, facts, active, target, before, registers, i)
  {
    JournaledDistinct(facts, pa);
    JournaledDistinct(facts, pt);
    JournaledMember(facts, pa, i);
    JournaledMember(facts, pt, i);
    TransferMeaning(shared + ae, shared + te, shared, ae, te, registers);
    assert i in pa <==> Ancestor(inventory, active, i);
    assert i in pt <==> Ancestor(inventory, target, i);
    assert Ids(ae + shared + te) == Ids(shared + ae) + Ids(shared + te);
    var b := Bridge(facts[i].id, facts[i].control);
    assert b in shared + ae || b in shared + te ==> b in ae + shared + te;
    assert facts[i].id in before;
    hide StrictPath, Ancestor;
  }

  lemma TransferAll(inventory: Inventory, facts: seq<Facts>, active: Record, target: Record,
                    shared: seq<Bridge>, ae: seq<Bridge>, te: seq<Bridge>,
                    before: map<BridgeId, Control>, registers: map<BridgeId, Control>)
    requires |facts| == |inventory| && DistinctIds(facts) && Known(facts, before)
    requires Split(inventory, facts, active, target, shared, ae, te) && Ids(ae) !! Ids(shared + te)
    requires Holding(ae + shared + te, before)
    requires Holds(registers, ae, false) && Holds(registers, shared, true) && Holds(registers, te, true)
    requires AgreeOutside(registers, before, Ids(ae + shared + te))
    ensures Transferred(inventory, facts, active, target, before, registers)
  {
    var pa, pt :|
      && StrictPath(inventory, active, pa) && StrictPath(inventory, target, pt)
      && Journaled(facts, pa) == shared + ae && Journaled(facts, pt) == shared + te;
    assert Ids(shared + te) == Ids(shared) + Ids(te);
    hide StrictPath, Known, Holding, Holds, AgreeOutside, RoutedOne, Ids;
    forall i | 0 <= i < |facts| ensures RoutedOne(inventory, facts, active, target, before, registers, i) {
      TransferOne(inventory, facts, active, target, pa, pt, shared, ae, te, before, registers, i);
    }
  }

  /** From the inventory to the routed registers, with the restoration that
      follows a failed transfer.  Success moves the route of the target.  After a
      failure the registers are restored at once: unless the restoration itself meets
      a fault, none has changed.  Without a failed read, over distinct device paths, a
      plan is made exactly when one can be made, and without a register fault it is
      carried out. */
  method PlanAndTransfer(inventory: Inventory, facts: seq<Facts>, active: Record, target: Record,
                         control: map<BridgeId, Control>, command: Command, policy: EndpointPolicy)
    returns (planned: bool, done: bool, plan: RoutePlan?, ghost readFailed: bool, ghost applyFaults: nat)
    requires |facts| == |inventory| && DistinctIds(facts) && Known(facts, control)
    ensures planned <==> plan != null
    ensures DistinctPaths(inventory) && !readFailed ==>
      (planned <==> Plannable(inventory, facts, active, target, control))
    ensures planned ==> fresh(plan) && plan.Valid() && applyFaults <= plan.faults && (applyFaults == 0 ==> done)
    ensures done ==>
      && planned && Transferred(inventory, facts, active, target, control, plan.control)
      && plan.command == RequiredCommand(command, policy)
    ensures planned && !done && plan.faults == applyFaults ==> !plan.dirty
    ensures planned && !done && !plan.dirty ==> plan.control == control && plan.command == command
  {
    hide Split, Known, Transferred, Holding, Plannable;
    done, plan, applyFaults := false, null, 0;
    var status, shared, ae, te;
    status, shared, ae, te, readFailed := BuildAndClassify(inventory, facts, active, target, control);
    planned := status == PathClassification.Success;
    if !planned {
      return;
    }
    HoldingAll(ae + shared + te, control);
    plan := new RoutePlan(control, ae, shared, te, command, policy);
    done := plan.RouteApply();
    applyFaults := plan.faults;
    if done {
      TransferAll(inventory, facts, active, target, shared, ae, te, control, plan.control);
      return;
    }
    ghost var failed := plan.control;
    plan.RouteRestore();
    if !plan.dirty {
      RestoredAll(ae + shared + te, control, failed, plan.control);
    }
  }

  lemma HoldingAll(bridges: seq<Bridge>, registers: map<BridgeId, Control>)
    requires Holding(bridges, registers)
    ensures forall b :: b in bridges ==> b.id in registers && registers[b.id] == b.original
  {
  }

  /** Registers that agree with the old ones outside a path and hold the journal on
      it are the old ones. */
  lemma RestoredAll(path: seq<Bridge>, before: map<BridgeId, Control>,
                    failed: map<BridgeId, Control>, registers: map<BridgeId, Control>)
    requires AgreeOutside(failed, before, Ids(path)) && AgreeOutside(registers, failed, Ids(path))
    requires Holding(path, before)
    requires forall b :: b in path ==> b.id in registers && registers[b.id] == b.original
    ensures registers == before
  {
    forall id | id in registers ensures registers[id] == before[id] {
      if id in Ids(path) {
        var b :| b in path && b.id == id;
      }
    }
  }
}
