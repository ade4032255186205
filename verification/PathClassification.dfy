/** Splitting the bridge paths of the active and the target display into a
    shared part and two exclusive parts. */
module PathClassification {

  datatype BridgeId = BridgeId(handle: nat, pciIo: nat, segment: nat, bus: nat, device: nat, func: nat)

  /** The 16-bit bridge-control register: VGA forwarding (bit 3) and the other
      fifteen bits. */
  datatype Control = Control(vga: bool, others: nat)

  /** A bridge with the bridge-control value journaled for it. */
  datatype Bridge = Bridge(id: BridgeId, original: Control)

  datatype Status = Success | NotReady | CompromisedData

  function Ids(path: seq<Bridge>): (ids: set<BridgeId>) {
    set b | b in path :: b.id
  }

  ghost predicate Distinct(path: seq<Bridge>) {
    forall i, j :: 0 <= i < j < |path| ==> path[i].id != path[j].id
  }

  /** The first n bridges of both paths are the same devices. */
  ghost predicate CommonPrefix(active: seq<Bridge>, target: seq<Bridge>, n: nat) {
    && n <= |active| && n <= |target|
    && forall i :: 0 <= i < n ==> active[i].id == target[i].id
  }

  ghost predicate LongestCommonPrefix(active: seq<Bridge>, target: seq<Bridge>, n: nat) {
    && CommonPrefix(active, target, n)
    && !CommonPrefix(active, target, n + 1)
  }

  ghost predicate DifferentJournals(active: seq<Bridge>, target: seq<Bridge>, n: nat) {
    exists i :: 0 <= i < n && i < |active| && i < |target| && active[i].original != target[i].original
  }

  /** A bridge of the active path reappears on the target path after the paths
      have diverged. */
  ghost predicate Rejoins(active: seq<Bridge>, target: seq<Bridge>, n: nat) {
    exists i, j :: n <= i < |active| && n <= j < |target| && active[i].id == target[j].id
  }

  method Classify(active: seq<Bridge>, target: seq<Bridge>)
    returns (status: Status, shared: seq<Bridge>, activeExclusive: seq<Bridge>, targetExclusive: seq<Bridge>)
    ensures forall n: nat :: LongestCommonPrefix(active, target, n) ==>
      && (status == NotReady <==> DifferentJournals(active, target, n))
      && (status == CompromisedData <==> !DifferentJournals(active, target, n) && Rejoins(active, target, n))
    ensures status == Success ==> LongestCommonPrefix(active, target, |shared|)
    ensures status == Success ==> active == shared + activeExclusive && target == shared + targetExclusive
    ensures status == Success ==> Ids(activeExclusive) !! Ids(targetExclusive)
  {
    status, shared, activeExclusive, targetExclusive := Success, [], [], [];
    var count := 0;
    while count < |active| && count < |target| && active[count].id == target[count].id
      invariant 0 <= count <= |active| && count <= |target|
      invariant CommonPrefix(active, target, count)
      invariant !DifferentJournals(active, target, count)
      invariant shared == active[..count] == target[..count]
    {
      if active[count].original != target[count].original {
        forall n: nat | LongestCommonPrefix(active, target, n) ensures DifferentJournals(active, target, n) {
          LongerPrefix(active, target, count + 1, n);
          assert active[count].original != target[count].original;
        }
        return NotReady, shared, activeExclusive, targetExclusive;
      }
      shared := shared + [active[count]];
      count := count + 1;
    }
    assert LongestCommonPrefix(active, target, count);
    forall n: nat | LongestCommonPrefix(active, target, n) ensures n == count {
      LongerPrefix(active, target, count, n);
      LongerPrefix(active, target, n, count);
    }
    var i := count;
    while i < |active|
      invariant count <= i <= |active|
      invariant forall k, m :: count <= k < i && count <= m < |target| ==> active[k].id != target[m].id
    {
      var j := count;
      while j < |target|
        invariant count <= j <= |target|
        invariant forall m :: count <= m < j ==> active[i].id != target[m].id
      {
        if active[i].id == target[j].id {
          assert Rejoins(active, target, count);
          return CompromisedData, shared, activeExclusive, targetExclusive;
        }
        j := j + 1;
      }
      i := i + 1;
    }
    activeExclusive, targetExclusive := active[count..], target[count..];
  }

  lemma LongerPrefix(active: seq<Bridge>, target: seq<Bridge>, m: nat, n: nat)
    requires CommonPrefix(active, target, m) && LongestCommonPrefix(active, target, n)
    ensures m <= n
  {
  }

  /** For duplicate-free paths the three parts are pairwise disjoint, so no
      bridge the target needs is in the part that gets disabled. */
  lemma PartsAreDisjoint(active: seq<Bridge>, target: seq<Bridge>,
                         shared: seq<Bridge>, activeExclusive: seq<Bridge>, targetExclusive: seq<Bridge>)
    requires Distinct(active) && Distinct(target)
    requires active == shared + activeExclusive && target == shared + targetExclusive
    requires Ids(activeExclusive) !! Ids(targetExclusive)
    ensures Distinct(activeExclusive + shared + targetExclusive)
    ensures Ids(activeExclusive) !! Ids(target)
  {
    SplitDistinct(shared, activeExclusive);
    SplitDistinct(shared, targetExclusive);
    JoinDistinct(activeExclusive, shared);
    assert Ids(activeExclusive + shared) == Ids(activeExclusive) + Ids(shared);
    JoinDistinct(activeExclusive + shared, targetExclusive);
    assert Ids(target) == Ids(shared) + Ids(targetExclusive);
  }

  lemma SplitDistinct(left: seq<Bridge>, right: seq<Bridge>)
    requires Distinct(left + right)
    ensures Distinct(left) && Distinct(right) && Ids(left) !! Ids(right)
  {
    var both := left + right;
    forall i, j | 0 <= i < j < |left| ensures left[i].id != left[j].id {
      assert both[i] == left[i] && both[j] == left[j];
    }
    forall i, j | 0 <= i < j < |right| ensures right[i].id != right[j].id {
      assert both[|left| + i] == right[i] && both[|left| + j] == right[j];
    }
    forall a, b | a in left && b in right ensures a.id != b.id {
      var i :| 0 <= i < |left| && left[i] == a;
      var j :| 0 <= j < |right| && right[j] == b;
      assert both[i] == a && both[|left| + j] == b;
    }
  }

  lemma JoinDistinct(left: seq<Bridge>, right: seq<Bridge>)
    requires Distinct(left) && Distinct(right) && Ids(left) !! Ids(right)
    ensures Distinct(left + right)
  {
    var both := left + right;
    forall i, j | 0 <= i < j < |both| ensures both[i].id != both[j].id {
      if i < |left| <= j {
        assert both[i].id in Ids(left) && both[j].id in Ids(right);
      }
    }
  }
}
