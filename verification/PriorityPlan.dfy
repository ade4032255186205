/** The BBS boot-priority planner.

    The planner ranks the rows of the firmware's BBS table that a transaction
    may touch.  Its result is specified without reference to the selection
    loop: the planned priority of a row is the number of eligible rows that
    come before it in a strict total order. */
module PriorityPlan {
  import opened Basics

  const MAX_BBS_ENTRIES: nat := 256
  const BBS_HARDDISK: u16 := 0x02
  const BBS_DO_NOT_BOOT_FROM: u16 := 0xFFFC
  const BBS_LOWEST_PRIORITY: u16 := 0xFFFD
  const BBS_UNPRIORITIZED_ENTRY: u16 := 0xFFFE
  const BBS_IGNORE_ENTRY: u16 := 0xFFFF
  const MAX_UINT16: u16 := 0xFFFF

  datatype Status =
    | Success
    | InvalidParameter
    | NotFound
    | CompromisedData
    | OutOfResources
    | AccessDenied
    | NotReady
    | AlreadyStarted
    | Aborted
    | DeviceError
    | Foreign(code: nat)  // an error raised by firmware or by the log

  /** Every byte of a BBS row after the two-byte BootPriority field. */
  datatype Identity = Identity(deviceType: u16, statusFlags: u16, rest: seq<u8>)

  datatype Entry = Entry(priority: u16, identity: Identity)

  /** A strictly validated LegacyDevOrder variable. */
  datatype DevOrder = Unusable | Usable(ranks: seq<u16>, disabled: seq<bool>)

  /** What the planner reads: the journaled rows, the selected row, the rows a
      transaction may touch, and the ordering source. */
  datatype Table = Table(journal: seq<Entry>, selected: u16, eligible: seq<bool>, order: DevOrder)
  {
    predicate Valid() {
      && |journal| <= MAX_BBS_ENTRIES
      && |eligible| == |journal|
      && (order.Usable? ==> |order.ranks| == |order.disabled| == |journal|)
    }
  }

  function Priorities(entries: seq<Entry>): (r: seq<u16>)
    ensures |r| == |entries|
  {
    seq(|entries|, i requires 0 <= i < |entries| => entries[i].priority)
  }

  // ---------------------------------------------------------------- eligibility

  predicate PriorityIsValid(priority: u16) {
    priority != BBS_IGNORE_ENTRY && priority != BBS_DO_NOT_BOOT_FROM && priority != BBS_LOWEST_PRIORITY
  }

  predicate EntryIsEligible(entry: Entry, corroborated: bool) {
    var flags := entry.identity.statusFlags;
    var mediaPresent := flags / 0x400 % 4;
    && PriorityIsValid(entry.priority)
    && ((flags == 0 && corroborated) ||
        (flags / 0x100 % 2 == 1 && flags / 0x200 % 2 == 0 && (mediaPresent == 1 || mediaPresent == 2)))
  }

  predicate SelectedDiskCanAttempt(entry: Entry, corroborated: bool) {
    && entry.identity.deviceType == BBS_HARDDISK
    && (entry.identity.statusFlags != 0 || corroborated)
  }

  /** The eligibility policy.  corroborated[i] says whether resident-ROM or
      firmware-AHCI evidence backs row i. */
  predicate PolicyAllows(journal: seq<Entry>, selected: u16, corroborated: seq<bool>, order: DevOrder, i: int)
    requires 0 <= i < |journal| == |corroborated|
    requires order.Usable? ==> |order.disabled| == |journal|
  {
    if i == selected then
      SelectedDiskCanAttempt(journal[i], corroborated[i])
    else
      && EntryIsEligible(journal[i], corroborated[i])
      && journal[i].identity.statusFlags != 0
      && (order.Unusable? || !order.disabled[i])
  }

  function PolicyTable(journal: seq<Entry>, selected: u16, corroborated: seq<bool>, order: DevOrder): (t: Table)
    requires |journal| <= MAX_BBS_ENTRIES && |corroborated| == |journal|
    requires order.Usable? ==> |order.ranks| == |order.disabled| == |journal|
    ensures t.Valid() && t.journal == journal && t.selected == selected && t.order == order
    ensures forall i :: 0 <= i < |journal| ==> Eligible(t, i) == PolicyAllows(journal, selected, corroborated, order, i)
  {
    Table(journal, selected,
          seq(|journal|, i requires 0 <= i < |journal| => PolicyAllows(journal, selected, corroborated, order, i)),
          order)
  }

  predicate Eligible(t: Table, i: int)
    requires t.Valid()
  {
    0 <= i < |t.journal| && t.eligible[i]
  }

  // ---------------------------------------------------- the order being planned

  predicate IsDisk(t: Table, i: int)
    requires 0 <= i < |t.journal|
  {
    t.journal[i].identity.deviceType == BBS_HARDDISK
  }

  /** The ordering key inside a class of rows. */
  function Key(t: Table, i: int): int
    requires t.Valid() && 0 <= i < |t.journal|
  {
    if t.order.Usable? then t.order.ranks[i]
    else if IsDisk(t, i) then 0
    else t.journal[i].priority
  }

  /** Row i comes before row j: the selected disk first, then the other hard
      disks, then everything else; ties are broken by key and then by index. */
  predicate Precedes(t: Table, i: int, j: int)
    requires t.Valid() && 0 <= i < |t.journal| && 0 <= j < |t.journal|
  {
    && i != j
    && j != t.selected
    && (|| i == t.selected
        || (IsDisk(t, i) && !IsDisk(t, j))
        || (IsDisk(t, i) == IsDisk(t, j) && (Key(t, i) < Key(t, j) || (Key(t, i) == Key(t, j) && i < j))))
  }

  ghost function EligibleRows(t: Table): set<int>
    requires t.Valid()
  {
    set i | 0 <= i < |t.journal| && Eligible(t, i)
  }

  ghost function Before(t: Table, j: int): set<int>
    requires t.Valid() && 0 <= j < |t.journal|
  {
    set i | 0 <= i < |t.journal| && Eligible(t, i) && Precedes(t, i, j)
  }

  /** The rank of a row: how many eligible rows come before it. */
  ghost function Rank(t: Table, j: int): nat
    requires t.Valid() && 0 <= j < |t.journal|
  {
    |Before(t, j)|
  }

  /** The meaning of a plan. */
  ghost predicate IsPlan(t: Table, planned: seq<u16>)
    requires t.Valid()
  {
    && |planned| == |t.journal|
    && t.selected < |planned| && Eligible(t, t.selected)
    && (forall i :: 0 <= i < |planned| ==>
          planned[i] == if Eligible(t, i) then Rank(t, i) else t.journal[i].priority)
    && (forall i :: 0 <= i < |planned| && i != t.selected ==> planned[i] != 0)
  }

  /** Some transaction row is planned at priority p. */
  ghost predicate Assigned(t: Table, planned: seq<u16>, p: nat)
    requires t.Valid() && |planned| == |t.journal|
  {
    exists i :: 0 <= i < |planned| && Eligible(t, i) && planned[i] == p
  }

  // ------------------------------------------------------ what a plan guarantees

  lemma SubsetCardinality(a: set<int>, b: set<int>)
    requires a <= b
    ensures |a| <= |b|
    ensures a != b ==> |a| < |b|
  {
    assert b == a + (b - a);
  }

  lemma {:induction false} RowsBounded(n: nat, s: set<int>)
    requires forall i :: i in s ==> 0 <= i < n
    ensures |s| <= n
    decreases n
  {
    if n == 0 {
      forall x: int ensures x !in s {
      }
      assert |s| == 0;
    } else {
      RowsBounded(n - 1, s - {n - 1});
    }
  }

  lemma PrecedesTransitive(t: Table, i: int, j: int, k: int)
    requires t.Valid() && Eligible(t, i) && Eligible(t, j) && Eligible(t, k)
    requires i == j || Precedes(t, i, j)
    requires Precedes(t, j, k)
    ensures Precedes(t, i, k)
  {
  }

  /** Ranks follow the order, both ways, so no two rows share one. */
  lemma RankFollowsOrder(t: Table, i: int, j: int)
    requires t.Valid() && Eligible(t, i) && Eligible(t, j)
    ensures Precedes(t, i, j) <==> Rank(t, i) < Rank(t, j)
    ensures Rank(t, i) == Rank(t, j) ==> i == j
  {
    if i != j {
      if Precedes(t, i, j) {
        RankStep(t, i, j);
      } else {
        RankStep(t, j, i);
      }
    }
  }

  lemma RankStep(t: Table, i: int, j: int)
    requires t.Valid() && Eligible(t, i) && Eligible(t, j) && Precedes(t, i, j)
    ensures Rank(t, i) < Rank(t, j)
  {
    assert Before(t, i) <= Before(t, j);
    assert i in Before(t, j) && i !in Before(t, i);
    SubsetCardinality(Before(t, i), Before(t, j));
  }

  lemma RankBound(t: Table, i: int)
    requires t.Valid() && Eligible(t, i)
    ensures Rank(t, i) < |EligibleRows(t)| <= |t.journal|
  {
    assert Before(t, i) <= EligibleRows(t);
    assert i in EligibleRows(t) && i !in Before(t, i);
    SubsetCardinality(Before(t, i), EligibleRows(t));
    RowsBounded(|t.journal|, EligibleRows(t));
  }

  /** The ranks are dense: every number below the count of eligible rows is the
      rank of some eligible row. */
  lemma RanksAreDense(t: Table, p: nat)
    requires t.Valid() && p < |EligibleRows(t)|
    ensures exists i :: Eligible(t, i) && Rank(t, i) == p
  {
    var i := RowOfRank(t, EligibleRows(t), p);
    assert Eligible(t, i) && Rank(t, i) == p;
  }

  lemma {:induction false} RowOfRank(t: Table, rows: set<int>, p: nat) returns (i: int)
    requires t.Valid() && p < |rows| && rows <= EligibleRows(t)
    requires forall a, b :: a in EligibleRows(t) && b in rows && Precedes(t, a, b) ==> a in rows
    ensures i in rows && Rank(t, i) == p
    decreases rows
  {
    var last := LastRow(t, rows);
    assert Before(t, last) == rows - {last};
    if p == |rows| - 1 {
      i := last;
    } else {
      i := RowOfRank(t, rows - {last}, p);
    }
  }

  lemma {:induction false} LastRow(t: Table, rows: set<int>) returns (last: int)
    requires t.Valid() && rows != {} && rows <= EligibleRows(t)
    ensures last in rows && forall a :: a in rows && a != last ==> Precedes(t, a, last)
    decreases rows
  {
    var one :| one in rows;
    last := one;
    if rows != {one} {
      var rest := LastRow(t, rows - {one});
      if Precedes(t, one, rest) {
        last := rest;
      } else {
        forall a | a in rows && a != one ensures Precedes(t, a, one) {
          assert a == rest || Precedes(t, a, rest);
          PrecedesTransitive(t, a, rest, one);
        }
      }
    }
  }

  /** The plan as the transaction and its documentation use it: the selected
      disk alone has priority zero, eligible rows receive 0..k-1 without
      repeats, other hard disks come before non-disks, equal classes keep the
      key order, and rows outside the transaction keep their value. */
  lemma PlanGuarantees(t: Table, planned: seq<u16>)
    requires t.Valid() && IsPlan(t, planned)
    ensures forall i :: 0 <= i < |planned| ==> (planned[i] == 0 <==> i == t.selected)
    ensures forall i :: 0 <= i < |planned| && !Eligible(t, i) ==> planned[i] == t.journal[i].priority
    ensures forall i :: 0 <= i < |planned| && Eligible(t, i) ==> planned[i] < |EligibleRows(t)|
    ensures forall i, j :: 0 <= i < |planned| && 0 <= j < |planned| && Eligible(t, i) && Eligible(t, j) ==>
              (planned[i] == planned[j] ==> i == j) && (planned[i] < planned[j] <==> Precedes(t, i, j))
    ensures forall p: nat :: p < |EligibleRows(t)| ==> Assigned(t, planned, p)
  {
    assert Before(t, t.selected) == {};
    assert planned[t.selected] == Rank(t, t.selected) == 0;
    forall i | 0 <= i < |planned| && Eligible(t, i) ensures planned[i] < |EligibleRows(t)| {
      RankBound(t, i);
    }
    forall i, j | 0 <= i < |planned| && 0 <= j < |planned| && Eligible(t, i) && Eligible(t, j)
      ensures (planned[i] == planned[j] ==> i == j) && (planned[i] < planned[j] <==> Precedes(t, i, j))
    {
      RankFollowsOrder(t, i, j);
    }
    forall p: nat | p < |EligibleRows(t)| ensures Assigned(t, planned, p) {
      RanksAreDense(t, p);
      var i :| Eligible(t, i) && Rank(t, i) == p;
      assert 0 <= i < |planned| && Eligible(t, i) && planned[i] == p;
    }
  }

  // ------------------------------------------- the plan told from the firmware's rows

  /** A row that must keep its value: a reserved priority, not enabled, failed,
      without known media, or disabled by the order. */
  predicate MustKeep(entry: Entry, order: DevOrder, i: nat)
    requires order.Usable? ==> i < |order.disabled|
  {
    || entry.priority in {0xFFFF, 0xFFFC, 0xFFFD}
    || entry.identity.statusFlags / 0x100 % 2 == 0
    || entry.identity.statusFlags / 0x200 % 2 == 1
    || entry.identity.statusFlags / 0x400 % 4 in {0, 3}
    || (order.Usable? && order.disabled[i])
  }

  /** An unselected row that is ranked. */
  predicate Moves(journal: seq<Entry>, selected: u16, order: DevOrder, i: nat)
    requires order.Usable? ==> |order.disabled| == |journal|
  {
    i < |journal| && i != selected && !MustKeep(journal[i], order, i)
  }

  /** Hard disks before other devices.  A usable order decides within a class;
      without one, disks keep their table order and other devices their priority. */
  predicate ComesBefore(journal: seq<Entry>, order: DevOrder, i: nat, j: nat)
    requires i < |journal| && j < |journal| && (order.Usable? ==> |order.ranks| == |journal|)
  {
    var diskI, diskJ := journal[i].identity.deviceType == 2, journal[j].identity.deviceType == 2;
    if diskI != diskJ then diskI
    else match order
      case Usable(ranks, _) => ranks[i] < ranks[j] || (ranks[i] == ranks[j] && i < j)
      case Unusable =>
        if diskI then i < j
        else journal[i].priority < journal[j].priority || (journal[i].priority == journal[j].priority && i < j)
  }

  /** What a plan must do with the journaled rows, the selected one and the order. */
  ghost predicate PlanFollows(journal: seq<Entry>, selected: u16, order: DevOrder, planned: seq<u16>)
    requires order.Usable? ==> |order.ranks| == |order.disabled| == |journal|
  {
    && |planned| == |journal| && selected < |journal|
    && (forall i :: 0 <= i < |planned| ==> (planned[i] == 0 <==> i == selected))
    && (forall i :: 0 <= i < |planned| && i != selected && MustKeep(journal[i], order, i) ==>
          planned[i] == journal[i].priority)
    && (forall i: nat, j: nat :: Moves(journal, selected, order, i) && Moves(journal, selected, order, j) && i != j ==>
          (planned[i] < planned[j] <==> ComesBefore(journal, order, i, j)))
    && (forall i: nat, p: nat :: Moves(journal, selected, order, i) && p < planned[i] ==>
          Planned(journal, selected, order, planned, p))
  }

  /** The priority is given to the selected row or to one that may move. */
  ghost predicate Planned(journal: seq<Entry>, selected: u16, order: DevOrder, planned: seq<u16>, p: nat)
    requires |planned| == |journal| && (order.Usable? ==> |order.disabled| == |journal|)
  {
    exists i :: 0 <= i < |planned| && planned[i] == p && (i == selected || !MustKeep(journal[i], order, i))
  }

  /** An unselected row may be touched exactly if it need not be kept. */
  lemma PolicyMoves(journal: seq<Entry>, selected: u16, corroborated: seq<bool>, order: DevOrder, i: nat)
    requires i < |journal| == |corroborated| && (order.Usable? ==> |order.disabled| == |journal|)
    requires i != selected
    ensures PolicyAllows(journal, selected, corroborated, order, i) <==> !MustKeep(journal[i], order, i)
  {
    assert journal[i].identity.statusFlags == 0 ==> journal[i].identity.statusFlags / 0x100 % 2 == 0;
  }

  lemma PolicyPlanFollows(journal: seq<Entry>, selected: u16, corroborated: seq<bool>, order: DevOrder,
                          planned: seq<u16>)
    requires |journal| <= MAX_BBS_ENTRIES && |corroborated| == |journal|
    requires order.Usable? ==> |order.ranks| == |order.disabled| == |journal|
    requires IsPlan(PolicyTable(journal, selected, corroborated, order), planned)
    ensures PlanFollows(journal, selected, order, planned)
  {
    var t := PolicyTable(journal, selected, corroborated, order);
    PlanGuarantees(t, planned);
    forall i: nat | i < |journal| && i != selected ensures Eligible(t, i) <==> !MustKeep(journal[i], order, i) {
      PolicyMoves(journal, selected, corroborated, order, i);
    }
    hide MustKeep, PolicyAllows, IsPlan, Rank;
    forall i: nat, p: nat | Moves(journal, selected, order, i) && p < planned[i]
      ensures Planned(journal, selected, order, planned, p)
    {
      assert Eligible(t, i);
      assert Assigned(t, planned, p);
      var k :| 0 <= k < |planned| && Eligible(t, k) && planned[k] == p;
    }
    forall i: nat, j: nat | Moves(journal, selected, order, i) && Moves(journal, selected, order, j) && i != j
      ensures planned[i] < planned[j] <==> ComesBefore(journal, order, i, j)
    {
      assert Eligible(t, i) && Eligible(t, j);
      assert Precedes(t, i, j) <==> ComesBefore(journal, order, i, j);
    }
  }

  /** The rows can be planned: the selected one is a disk with a status or with
      evidence, a usable order ranks every other row that may move, and no kept row
      holds priority 0. */
  ghost predicate CanPlan(journal: seq<Entry>, selected: u16, corroborated: seq<bool>, order: DevOrder)
    requires |corroborated| == |journal| && (order.Usable? ==> |order.ranks| == |order.disabled| == |journal|)
  {
    && selected < |journal| && journal[selected].identity.deviceType == 2
    && (journal[selected].identity.statusFlags != 0 || corroborated[selected])
    && (forall i :: 0 <= i < |journal| && i != selected && order.Usable? && !MustKeep(journal[i], order, i) ==>
          order.ranks[i] != 0xFFFF)
    && (forall i :: 0 <= i < |journal| && i != selected && MustKeep(journal[i], order, i) ==> journal[i].priority != 0)
  }

  lemma PolicyCanPlan(journal: seq<Entry>, selected: u16, corroborated: seq<bool>, order: DevOrder)
    requires |journal| <= MAX_BBS_ENTRIES && |corroborated| == |journal|
    requires order.Usable? ==> |order.ranks| == |order.disabled| == |journal|
    ensures var t := PolicyTable(journal, selected, corroborated, order);
      CanPlan(journal, selected, corroborated, order) <==>
      Eligible(t, selected) && !HasUnranked(t) && !ProtectedZero(t)
  {
    var t := PolicyTable(journal, selected, corroborated, order);
    forall i: nat | i < |journal| && i != selected ensures Eligible(t, i) <==> !MustKeep(journal[i], order, i) {
      PolicyMoves(journal, selected, corroborated, order, i);
    }
    assert selected < |journal| ==>
      (Eligible(t, selected) <==> SelectedDiskCanAttempt(journal[selected], corroborated[selected]));
    hide MustKeep, PolicyAllows;
    assert CanPlan(journal, selected, corroborated, order) ==> !HasUnranked(t) && !ProtectedZero(t);
    if !HasUnranked(t) && !ProtectedZero(t) {
      forall i | 0 <= i < |journal| && i != selected
        ensures !MustKeep(journal[i], order, i) && order.Usable? ==> order.ranks[i] != 0xFFFF
        ensures MustKeep(journal[i], order, i) ==> journal[i].priority != 0
      {
        assert !Unranked(t, i);
      }
    }
  }

  // --------------------------------------------------------------- the algorithm

  /** A usable order gives this transaction row no rank. */
  predicate Unranked(t: Table, i: int)
    requires t.Valid()
  {
    Eligible(t, i) && i != t.selected && t.order.Usable? && t.order.ranks[i] == MAX_UINT16
  }

  ghost predicate HasUnranked(t: Table)
    requires t.Valid()
  {
    exists i :: 0 <= i < |t.journal| && Unranked(t, i)
  }

  ghost predicate ProtectedZero(t: Table)
    requires t.Valid()
  {
    exists i :: 0 <= i < |t.journal| && i != t.selected && !Eligible(t, i) && t.journal[i].priority == 0
  }

  predicate InPass(t: Table, ranked: seq<bool>, pass: nat, i: int)
    requires t.Valid() && |ranked| == |t.journal| && 0 <= i < |t.journal|
  {
    !ranked[i] && Eligible(t, i) && (pass == 0) == IsDisk(t, i)
  }

  /** One scan over the table: the unranked row of this pass that no other one
      precedes. */
  method FindBest(t: Table, ranked: seq<bool>, pass: nat) returns (ok: bool, found: bool, best: nat)
    requires t.Valid() && |ranked| == |t.journal| && t.selected < |ranked| && ranked[t.selected]
    ensures !ok ==> HasUnranked(t)
    ensures ok ==> forall i :: 0 <= i < |ranked| && InPass(t, ranked, pass, i) ==> !Unranked(t, i)
    ensures ok && !found ==> forall i :: 0 <= i < |ranked| ==> !InPass(t, ranked, pass, i)
    ensures ok && found ==> best < |ranked| && InPass(t, ranked, pass, best)
    ensures ok && found ==>
              forall i :: 0 <= i < |ranked| && InPass(t, ranked, pass, i) && i != best ==> Precedes(t, best, i)
  {
    ok, found, best := true, false, 0;
    var bestPriority, bestRank := MAX_UINT16, MAX_UINT16;
    for index := 0 to |t.journal|
      invariant ok
      invariant forall i :: 0 <= i < index && InPass(t, ranked, pass, i) ==> !Unranked(t, i)
      invariant !found ==> forall i :: 0 <= i < index ==> !InPass(t, ranked, pass, i)
      invariant found ==> best < index && InPass(t, ranked, pass, best)
      invariant found ==> bestPriority == t.journal[best].priority
      invariant found ==> bestRank == if t.order.Usable? then t.order.ranks[best] else MAX_UINT16
      invariant found ==> forall i :: 0 <= i < index && InPass(t, ranked, pass, i) && i != best ==> Precedes(t, best, i)
    {
      if ranked[index] || !Eligible(t, index) || (pass == 0) != IsDisk(t, index) {
        continue;
      }
      var rank := if t.order.Usable? then t.order.ranks[index] else MAX_UINT16;
      if t.order.Usable? && rank == MAX_UINT16 {
        assert Unranked(t, index);
        ok := false;
        return;
      }
      if || !found
         || (t.order.Usable? && (rank < bestRank || (rank == bestRank && index < best)))
         || (!t.order.Usable? && pass == 0 && index < best)
         || (!t.order.Usable? && pass != 0 &&
             (t.journal[index].priority < bestPriority || (t.journal[index].priority == bestPriority && index < best)))
      {
        found, best := true, index;
        bestPriority, bestRank := t.journal[index].priority, rank;
      }
    }
  }

  /** The eligible rows that already have a planned priority. */
  ghost function Done(t: Table, ranked: seq<bool>): set<int>
    requires t.Valid() && |ranked| == |t.journal|
  {
    set i | 0 <= i < |t.journal| && Eligible(t, i) && ranked[i]
  }

  ghost predicate Progress(t: Table, ranked: seq<bool>, planned: seq<u16>, next: nat)
    requires t.Valid()
  {
    && |ranked| == |planned| == |t.journal|
    && t.selected < |ranked| && ranked[t.selected] && Eligible(t, t.selected)
    && next == |Done(t, ranked)|
    && (forall i :: 0 <= i < |ranked| && Eligible(t, i) && ranked[i] ==> planned[i] == Rank(t, i))
    && (forall i :: 0 <= i < |ranked| && !Eligible(t, i) ==> ranked[i] && planned[i] == t.journal[i].priority)
    && (forall i, j | 0 <= i < |ranked| && 0 <= j < |ranked| && Eligible(t, i) && Eligible(t, j) :: 
          ranked[i] && !ranked[j] ==> Precedes(t, i, j))
  }

  /** Choosing a row that precedes every other unranked row extends the plan. */
  lemma PlaceBest(t: Table, ranked: seq<bool>, planned: seq<u16>, next: nat, best: nat)
    requires t.Valid() && Progress(t, ranked, planned, next)
    requires best < |ranked| && Eligible(t, best) && !ranked[best]
    requires forall i :: 0 <= i < |ranked| && Eligible(t, i) && !ranked[i] && i != best ==> Precedes(t, best, i)
    ensures next < |t.journal| <= MAX_BBS_ENTRIES
    ensures Progress(t, ranked[best := true], planned[best := next], next + 1)
  {
    var ranked' := ranked[best := true];
    assert Before(t, best) == Done(t, ranked);
    assert Done(t, ranked') == Done(t, ranked) + {best};
    RowsBounded(|t.journal|, Done(t, ranked'));
    var planned' := planned[best := next];
  }

  lemma DoneBounded(t: Table, ranked: seq<bool>, planned: seq<u16>, next: nat)
    requires t.Valid() && Progress(t, ranked, planned, next)
    ensures next <= |t.journal|
  {
    RowsBounded(|t.journal|, Done(t, ranked));
  }

  /** The arrays before ranking: expected priorities are the journal's, and only
      eligible rows are still to be ranked. */
  method StartPlan(t: Table) returns (ranked: seq<bool>, planned: seq<u16>, expected: seq<u16>)
    requires t.Valid()
    ensures |ranked| == |planned| == |t.journal| && expected == Priorities(t.journal)
    ensures forall i :: 0 <= i < |ranked| ==>
      ranked[i] == !Eligible(t, i) && (ranked[i] ==> planned[i] == t.journal[i].priority)
  {
    ranked, planned, expected := [], [], [];
    for index := 0 to |t.journal|
      invariant |ranked| == |planned| == |expected| == index
      invariant expected == Priorities(t.journal)[..index]
      invariant forall i :: 0 <= i < index ==>
        ranked[i] == !Eligible(t, i) && (ranked[i] ==> planned[i] == t.journal[i].priority)
    {
      expected := expected + [t.journal[index].priority];
      if Eligible(t, index) {
        planned, ranked := planned + [BBS_UNPRIORITIZED_ENTRY], ranked + [false];
      } else {
        planned, ranked := planned + [t.journal[index].priority], ranked + [true];
      }
    }
  }

  lemma StartProgress(t: Table, ranked: seq<bool>, planned: seq<u16>)
    requires t.Valid() && |ranked| == |planned| == |t.journal| && Eligible(t, t.selected)
    requires forall i :: 0 <= i < |ranked| ==>
      ranked[i] == !Eligible(t, i) && (ranked[i] ==> planned[i] == t.journal[i].priority)
    ensures Progress(t, ranked[t.selected := true], planned[t.selected := 0], 1)
  {
    assert Done(t, ranked[t.selected := true]) == {t.selected as int};
    assert Before(t, t.selected) == {};
  }

  /** Rows already ranked are neither unranked by the order nor, after the disk
      pass, disks left behind. */
  ghost predicate Passed(t: Table, ranked: seq<bool>, pass: nat)
    requires t.Valid() && |ranked| == |t.journal|
  {
    && (forall i :: 0 <= i < |ranked| && ranked[i] ==> !Unranked(t, i))
    && (pass >= 1 ==> forall i :: 0 <= i < |ranked| && IsDisk(t, i) ==> ranked[i])
    && (pass >= 2 ==> forall i :: 0 <= i < |ranked| ==> ranked[i])
  }

  /** One pass: other disks first, then everything else. */
  method RankPass(t: Table, ranked0: seq<bool>, planned0: seq<u16>, next0: nat, pass: nat)
    returns (ok: bool, ranked: seq<bool>, planned: seq<u16>, next: nat)
    requires t.Valid() && pass < 2 && Progress(t, ranked0, planned0, next0) && Passed(t, ranked0, pass)
    ensures ok ==> Progress(t, ranked, planned, next) && Passed(t, ranked, pass + 1)
    ensures !ok ==> HasUnranked(t)
  {
    ranked, planned, next := ranked0, planned0, next0;
    var more := true;
    while more
      invariant Progress(t, ranked, planned, next) && Passed(t, ranked, pass)
      invariant !more ==> Passed(t, ranked, pass + 1)
      decreases |t.journal| - next, more
    {
      DoneBounded(t, ranked, planned, next);
      var found: bool, best: nat;
      ok, found, best := FindBest(t, ranked, pass);
      if !ok {
        return;
      }
      if !found {
        forall i | 0 <= i < |ranked| && (pass == 0) == IsDisk(t, i) ensures ranked[i] {
          assert !InPass(t, ranked, pass, i);
        }
        more := false;
      } else {
        PlaceBest(t, ranked, planned, next, best);
        if next >= BBS_DO_NOT_BOOT_FROM {
          assert false;
          return;
        }
        planned := planned[best := next];
        next := next + 1;
        ranked := ranked[best := true];
      }
    }
    ok := true;
  }

  /** The final search for a second row with priority 0. */
  method FindStrayZero(t: Table, planned: seq<u16>) returns (stray: bool)
    requires |planned| == |t.journal|
    ensures stray <==> exists i :: 0 <= i < |planned| && i != t.selected && planned[i] == 0
  {
    for index := 0 to |planned|
      invariant forall i :: 0 <= i < index && i != t.selected ==> planned[i] != 0
    {
      if index != t.selected && planned[index] == 0 {
        return true;
      }
    }
    stray := false;
  }

  lemma RankedIsPlan(t: Table, ranked: seq<bool>, planned: seq<u16>, next: nat)
    requires t.Valid() && Progress(t, ranked, planned, next) && Passed(t, ranked, 2)
    ensures !HasUnranked(t) && (!ProtectedZero(t) ==> IsPlan(t, planned))
    ensures ProtectedZero(t) <==> exists i :: 0 <= i < |planned| && i != t.selected && planned[i] == 0
  {
    assert Before(t, t.selected) == {};
    forall i | 0 <= i < |planned| && Eligible(t, i) && i != t.selected ensures planned[i] != 0 {
      assert t.selected as int in Before(t, i);
    }
  }

  method BuildPriorityPlan(t: Table) returns (status: Status, planned: seq<u16>, expected: seq<u16>)
    requires t.Valid()
    ensures status == InvalidParameter <==> t.selected >= |t.journal|
    ensures status == NotFound <==> t.selected < |t.journal| && !Eligible(t, t.selected)
    ensures status == CompromisedData <==> Eligible(t, t.selected) && HasUnranked(t)
    ensures status == AccessDenied <==> Eligible(t, t.selected) && !HasUnranked(t) && ProtectedZero(t)
    ensures status == Success <==> Eligible(t, t.selected) && !HasUnranked(t) && !ProtectedZero(t)
    ensures status in {InvalidParameter, NotFound, CompromisedData, AccessDenied, Success}
    ensures status == Success ==> IsPlan(t, planned) && expected == Priorities(t.journal)
  {
    planned, expected := [], [];
    if t.selected >= |t.journal| {
      return InvalidParameter, planned, expected;
    }
    var ranked: seq<bool>;
    ranked, planned, expected := StartPlan(t);
    if !Eligible(t, t.selected) {
      return NotFound, planned, expected;
    }
    StartProgress(t, ranked, planned);
    planned := planned[t.selected := 0];
    ranked := ranked[t.selected := true];
    var next: nat := 1;
    StartPassed(t, ranked);
    hide Progress, Passed, HasUnranked, ProtectedZero, IsPlan;
    for pass := 0 to 2
      invariant Progress(t, ranked, planned, next) && |ranked| == |t.journal| && Passed(t, ranked, pass)
    {
      var ok: bool;
      ok, ranked, planned, next := RankPass(t, ranked, planned, next, pass);
      if !ok {
        return CompromisedData, planned, expected;
      }
      ProgressLengths(t, ranked, planned, next);
    }
    RankedIsPlan(t, ranked, planned, next);
    ProgressLengths(t, ranked, planned, next);
    var stray := FindStrayZero(t, planned);
    status := if stray then AccessDenied else Success;
  }

  lemma StartPassed(t: Table, ranked: seq<bool>)
    requires t.Valid() && |ranked| == |t.journal|
    requires forall i :: 0 <= i < |ranked| ==> ranked[i] == (!Eligible(t, i) || i == t.selected)
    ensures Passed(t, ranked, 0)
  {
  }

  lemma ProgressLengths(t: Table, ranked: seq<bool>, planned: seq<u16>, next: nat)
    requires t.Valid() && Progress(t, ranked, planned, next)
    ensures |ranked| == |planned| == |t.journal|
  {
  }
}
