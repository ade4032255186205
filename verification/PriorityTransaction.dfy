/** The journaled BootPriority transaction.

    Firmware owns the live table.  A store may misbehave and leave any table
    behind, a log call or firmware check may fail, and the table may change by
    itself during such a call.  Ghost counters record these events, so that
    each claim can name the events it tolerates. */
module PriorityTransaction {
  import opened Basics
  import opened PriorityPlan

  const MAX_PRIORITY_WRITES: nat := 2 * MAX_BBS_ENTRIES

  datatype WriteRecord = WriteRecord(index: u16, oldPriority: u16, requestedPriority: u16)

  // ------------------------------------------------------------ the write history

  ghost predicate Touched(history: seq<WriteRecord>, i: int) {
    exists k :: 0 <= k < |history| && history[k].index == i
  }

  /** The first record of every index holds the journaled priority. */
  ghost predicate RootedInJournal(history: seq<WriteRecord>, journal: seq<Entry>) {
    && (forall k :: 0 <= k < |history| ==> history[k].index < |journal|)
    && (forall k :: 0 <= k < |history| ==>
          || history[k].oldPriority == journal[history[k].index].priority
          || Touched(history[..k], history[k].index))
  }

  /** Replaying the history backwards over a priority vector. */
  function Undo(history: seq<WriteRecord>, priorities: seq<u16>): (r: seq<u16>)
    requires forall k :: 0 <= k < |history| ==> history[k].index < |priorities|
    ensures |r| == |priorities|
  {
    if history == [] then priorities
    else
      var last := history[|history| - 1];
      Undo(history[..|history| - 1], priorities[last.index := last.oldPriority])
  }

  lemma {:induction false} UndoUntouched(history: seq<WriteRecord>, priorities: seq<u16>, i: int)
    requires forall k :: 0 <= k < |history| ==> history[k].index < |priorities|
    requires 0 <= i < |priorities| && !Touched(history, i)
    ensures Undo(history, priorities)[i] == priorities[i]
  {
    if history != [] {
      var init, last := history[..|history| - 1], history[|history| - 1];
      assert !Touched(init, i);
      UndoUntouched(init, priorities[last.index := last.oldPriority], i);
    }
  }

  lemma {:induction false} UndoTouched(history: seq<WriteRecord>, journal: seq<Entry>, priorities: seq<u16>, i: int)
    requires RootedInJournal(history, journal) && |priorities| == |journal|
    requires 0 <= i < |journal| && Touched(history, i)
    ensures Undo(history, priorities)[i] == journal[i].priority
  {
    var init, last := history[..|history| - 1], history[|history| - 1];
    var priorities' := priorities[last.index := last.oldPriority];
    RootedPrefix(history, journal);
    if Touched(init, i) {
      UndoTouched(init, journal, priorities', i);
    } else {
      UndoUntouched(init, priorities', i);
    }
  }

  lemma RootedPrefix(history: seq<WriteRecord>, journal: seq<Entry>)
    requires history != [] && RootedInJournal(history, journal)
    ensures RootedInJournal(history[..|history| - 1], journal)
  {
    var init := history[..|history| - 1];
    forall k | 0 <= k < |init|
      ensures init[k].oldPriority == journal[init[k].index].priority || Touched(init[..k], init[k].index)
    {
      assert init[..k] == history[..k];
    }
  }

  /** Reverse replay restores the journal from any intermediate priorities,
      provided the rows without a record still hold their journaled value. */
  lemma ReverseReplayRestores(history: seq<WriteRecord>, journal: seq<Entry>, priorities: seq<u16>)
    requires RootedInJournal(history, journal) && |priorities| == |journal|
    requires forall i :: 0 <= i < |journal| && !Touched(history, i) ==> priorities[i] == journal[i].priority
    ensures Undo(history, priorities) == Priorities(journal)
  {
    forall i | 0 <= i < |journal| ensures Undo(history, priorities)[i] == journal[i].priority {
      if Touched(history, i) {
        UndoTouched(history, journal, priorities, i);
      } else {
        UndoUntouched(history, priorities, i);
      }
    }
  }

  lemma ExtendHistory(history: seq<WriteRecord>, journal: seq<Entry>, record: WriteRecord)
    requires RootedInJournal(history, journal) && record.index < |journal|
    requires Touched(history, record.index) || record.oldPriority == journal[record.index].priority
    ensures RootedInJournal(history + [record], journal)
    ensures forall i :: Touched(history + [record], i) <==> Touched(history, i) || i == record.index
  {
    var longer := history + [record];
    forall k | 0 <= k < |longer|
      ensures longer[k].oldPriority == journal[longer[k].index].priority || Touched(longer[..k], longer[k].index)
    {
      assert longer[..k] == if k < |history| then history[..k] else history;
    }
    forall i ensures Touched(longer, i) <==> Touched(history, i) || i == record.index {
      if Touched(history, i) {
        var k :| 0 <= k < |history| && history[k].index == i;
        assert longer[k].index == i;
      }
      assert longer[|history|].index == record.index;
    }
  }

  /** The history and the expected priorities agree with the journal. */
  ghost predicate Ledger(journal: seq<Entry>, history: seq<WriteRecord>, expected: seq<u16>) {
    && |expected| == |journal|
    && RootedInJournal(history, journal)
    && forall i :: 0 <= i < |expected| && !Touched(history, i) ==> expected[i] == journal[i].priority
  }

  lemma LedgerWrite(journal: seq<Entry>, history: seq<WriteRecord>, expected: seq<u16>, record: WriteRecord)
    requires Ledger(journal, history, expected)
    requires record.index < |journal| && record.oldPriority == expected[record.index]
    ensures Ledger(journal, history + [record], expected)
    ensures Ledger(journal, history + [record], expected[record.index := record.requestedPriority])
    ensures Touched(history + [record], record.index)
  {
    ExtendHistory(history, journal, record);
  }

  lemma LedgerUndo(journal: seq<Entry>, history: seq<WriteRecord>, expected: seq<u16>, k: nat)
    requires Ledger(journal, history, expected) && k < |history|
    ensures history[k].index < |journal|
    ensures Ledger(journal, history, expected[history[k].index := history[k].oldPriority])
  {
    assert Touched(history, history[k].index);
  }

  lemma LedgerEmpty(journal: seq<Entry>, expected: seq<u16>)
    ensures Ledger(journal, [], expected) <==> expected == Priorities(journal)
  {
    if Ledger(journal, [], expected) {
      forall i | 0 <= i < |expected| ensures expected[i] == journal[i].priority {
        assert !Touched([], i);
      }
    }
  }

  // ------------------------------------------------------------------ the context

  /** Every row has its journaled identity and the given priority. */
  ghost predicate Matches(live: seq<Entry>, journal: seq<Entry>, priorities: seq<u16>) {
    && |live| == |journal| == |priorities|
    && forall i :: 0 <= i < |live| ==> live[i] == journal[i].(priority := priorities[i])
  }

  lemma MatchesJournal(live: seq<Entry>, journal: seq<Entry>)
    ensures Matches(live, journal, Priorities(journal)) <==> live == journal
  {
    if Matches(live, journal, Priorities(journal)) {
      forall i | 0 <= i < |live| ensures live[i] == journal[i] {
      }
    }
  }

  /** Identities are intact and rows without a record hold their journaled
      priority; the other priorities are arbitrary. */
  ghost predicate Restorable(live: seq<Entry>, journal: seq<Entry>, history: seq<WriteRecord>) {
    && SameIdentities(live, journal)
    && forall i :: 0 <= i < |live| && !Touched(history, i) ==> live[i].priority == journal[i].priority
  }

  ghost predicate SameIdentities(live: seq<Entry>, journal: seq<Entry>) {
    && |live| == |journal|
    && forall i :: 0 <= i < |live| ==> live[i].identity == journal[i].identity
  }

  /** Undoing the first k records of the history over the live table gives the
      journal back. */
  ghost predicate UndoesTo(live: seq<Entry>, journal: seq<Entry>, history: seq<WriteRecord>, k: nat) {
    && k <= |history|
    && SameIdentities(live, journal)
    && (forall j :: 0 <= j < |history| ==> history[j].index < |journal|)
    && Undo(history[..k], Priorities(live)) == Priorities(journal)
  }

  lemma RestorableUndoes(live: seq<Entry>, journal: seq<Entry>, history: seq<WriteRecord>)
    requires RootedInJournal(history, journal) && Restorable(live, journal, history)
    ensures UndoesTo(live, journal, history, |history|)
  {
    ReverseReplayRestores(history, journal, Priorities(live));
    assert history[..|history|] == history;
  }

  lemma UndoOne(live: seq<Entry>, journal: seq<Entry>, history: seq<WriteRecord>, k: nat, live': seq<Entry>)
    requires k < |history| && UndoesTo(live, journal, history, k + 1)
    requires live' == live[history[k].index := live[history[k].index].(priority := history[k].oldPriority)]
    ensures UndoesTo(live', journal, history, k)
  {
    assert history[..k + 1][..k] == history[..k];
    assert Priorities(live') == Priorities(live)[history[k].index := history[k].oldPriority];
  }

  lemma UndoesToNothing(live: seq<Entry>, journal: seq<Entry>, history: seq<WriteRecord>)
    requires UndoesTo(live, journal, history, 0)
    ensures live == journal
  {
    assert history[..0] == [];
    forall i | 0 <= i < |live| ensures live[i] == journal[i] {
      assert Priorities(live)[i] == Priorities(journal)[i];
    }
  }

  /** Undoing the first k records over the expected priorities gives the
      journaled ones. */
  ghost predicate ExpectsUndo(journal: seq<Entry>, history: seq<WriteRecord>, expected: seq<u16>, k: nat) {
    && k <= |history|
    && |expected| == |journal|
    && (forall j :: 0 <= j < |history| ==> history[j].index < |journal|)
    && Undo(history[..k], expected) == Priorities(journal)
  }

  lemma LedgerExpectsUndo(journal: seq<Entry>, history: seq<WriteRecord>, expected: seq<u16>)
    requires Ledger(journal, history, expected)
    ensures ExpectsUndo(journal, history, expected, |history|)
  {
    ReverseReplayRestores(history, journal, expected);
    assert history[..|history|] == history;
  }

  lemma ExpectUndoOne(journal: seq<Entry>, history: seq<WriteRecord>, expected: seq<u16>, k: nat)
    requires k < |history| && ExpectsUndo(journal, history, expected, k + 1)
    ensures ExpectsUndo(journal, history, expected[history[k].index := history[k].oldPriority], k)
  {
    assert history[..k + 1][..k] == history[..k];
  }

  lemma ExpectsNoUndo(journal: seq<Entry>, history: seq<WriteRecord>, expected: seq<u16>)
    requires ExpectsUndo(journal, history, expected, 0)
    ensures expected == Priorities(journal)
  {
    assert history[..0] == [];
  }

  lemma IdentityAt(live: seq<Entry>, journal: seq<Entry>, history: seq<WriteRecord>, expected: seq<u16>, k: nat)
    requires k < |history| && history[k].index < |journal| == |live|
    requires UndoesTo(live, journal, history, k + 1) || Matches(live, journal, expected)
    ensures live[history[k].index].identity == journal[history[k].index].identity
  {
  }

  lemma MatchesStore(live: seq<Entry>, journal: seq<Entry>, expected: seq<u16>, index: u16, priority: u16)
    requires Matches(live, journal, expected) && index < |live|
    ensures Matches(live[index := live[index].(priority := priority)], journal, expected[index := priority])
  {
  }

  /** Storing the old priority of record k undoes it, in the table and in the
      expected priorities. */
  lemma UndoStored(live: seq<Entry>, journal: seq<Entry>, history: seq<WriteRecord>, expected: seq<u16>, k: nat)
    requires k < |history| && history[k].index < |live| == |expected| == |journal|
    requires live[history[k].index].identity == journal[history[k].index].identity
    ensures var r := history[k];
      var stored := live[r.index := live[r.index].(priority := r.oldPriority)];
      && (Matches(live, journal, expected) ==> Matches(stored, journal, expected[r.index := r.oldPriority]))
      && (UndoesTo(live, journal, history, k + 1) ==> UndoesTo(stored, journal, history, k))
      && (ExpectsUndo(journal, history, expected, k + 1) ==>
            ExpectsUndo(journal, history, expected[r.index := r.oldPriority], k))
  {
    var r := history[k];
    if Matches(live, journal, expected) {
      MatchesStore(live, journal, expected, r.index, r.oldPriority);
    }
    hide Matches;
    if UndoesTo(live, journal, history, k + 1) {
      UndoOne(live, journal, history, k, live[r.index := live[r.index].(priority := r.oldPriority)]);
    }
    hide UndoesTo;
    if ExpectsUndo(journal, history, expected, k + 1) {
      ExpectUndoOne(journal, history, expected, k);
    }
  }

  lemma LedgerLength(journal: seq<Entry>, history: seq<WriteRecord>, expected: seq<u16>)
    requires Ledger(journal, history, expected)
    ensures |expected| == |journal|
  {
  }

  lemma TracksRestorable(live: seq<Entry>, journal: seq<Entry>, history: seq<WriteRecord>, expected: seq<u16>)
    requires Ledger(journal, history, expected) && Matches(live, journal, expected)
    ensures Restorable(live, journal, history)
  {
  }

  lemma LedgerRestorable(live: seq<Entry>, journal: seq<Entry>, history: seq<WriteRecord>, expected: seq<u16>)
    requires Ledger(journal, history, expected) && Restorable(live, journal, history)
    ensures UndoesTo(live, journal, history, |history|)
  {
    RestorableUndoes(live, journal, history);
  }

  // ---------------------------------------------------------- the two apply phases

  /** Phase one has unprioritized the eligible rows below k. */
  ghost predicate PhaseOne(t: Table, expected: seq<u16>, k: int)
    requires t.Valid()
  {
    && |expected| == |t.journal|
    && forall i :: 0 <= i < |expected| ==>
         expected[i] == if Eligible(t, i) && i < k then BBS_UNPRIORITIZED_ENTRY else t.journal[i].priority
  }

  /** Phase two has assigned the planned priorities below p. */
  ghost predicate PhaseTwo(t: Table, planned: seq<u16>, expected: seq<u16>, p: int)
    requires t.Valid()
  {
    && |expected| == |planned| == |t.journal|
    && forall i :: 0 <= i < |expected| ==>
         expected[i] == if !Eligible(t, i) then t.journal[i].priority
                        else if planned[i] < p then planned[i] else BBS_UNPRIORITIZED_ENTRY
  }

  lemma PhaseOneDone(t: Table, planned: seq<u16>, expected: seq<u16>)
    requires t.Valid() && PhaseOne(t, expected, |t.journal|) && |planned| == |t.journal|
    ensures PhaseTwo(t, planned, expected, 0)
  {
  }

  lemma PhaseTwoStep(t: Table, planned: seq<u16>, expected: seq<u16>, index: nat, p: u16)
    requires t.Valid() && IsPlan(t, planned) && PhaseTwo(t, planned, expected, p)
    requires Eligible(t, index) && planned[index] == p
    ensures expected[index] == BBS_UNPRIORITIZED_ENTRY != p
    ensures PhaseTwo(t, planned, expected[index := p], p + 1)
  {
    PlanGuarantees(t, planned);
    RankBound(t, index);
  }

  lemma PhaseTwoDone(t: Table, planned: seq<u16>, expected: seq<u16>, count: nat)
    requires t.Valid() && IsPlan(t, planned) && PhaseTwo(t, planned, expected, count)
    requires count == |EligibleRows(t)|
    ensures expected == planned
  {
    PlanGuarantees(t, planned);
  }

  class BootTarget {
    const count: nat
    // Firmware state.
    var live: seq<Entry>
    // Application state.
    var active: bool
    var snapshot: seq<Entry>
    var table: Table
    var planned: seq<u16>
    var expected: seq<u16>
    var journalAttempted: bool
    var journalComplete: bool
    var attempted: bool
    var dirty: bool
    var applied: bool
    var history: seq<WriteRecord>
    // What the environment did.
    ghost var disturbed: bool      // the table changed by itself after its last complete reread
    ghost var memoryFaults: nat    // misbehaving stores and self-made table changes
    ghost var callFaults: nat      // failed log calls and firmware checks

    ghost predicate Valid()
      reads this
    {
      && |live| == |snapshot| == count <= MAX_BBS_ENTRIES
      && (dirty <==> history != [])
      && (applied ==> dirty)
      && (dirty ==> attempted)
      && (attempted ==> journalComplete)
      && (journalComplete ==> journalAttempted)
      && |history| <= MAX_PRIORITY_WRITES
      && (journalComplete ==> Journaled())
    }

    /** The invariant once the journal is complete. */
    ghost predicate Journaled()
      reads this
    {
      && table.Valid()
      && |table.journal| == |live|
      && IsPlan(table, planned)
      && Ledger(table.journal, history, expected)
      && (!dirty && !disturbed ==> live == table.journal)
    }

    /** The live table is the journal with the expected priorities. */
    ghost predicate Tracks()
      reads this
    {
      Matches(live, table.journal, expected)
    }

    constructor (firmware: seq<Entry>)
      requires |firmware| <= MAX_BBS_ENTRIES
      ensures Valid() && active && live == snapshot == firmware && count == |firmware|
      ensures !journalAttempted && !attempted && !dirty && !applied
    {
      count, live, snapshot, active := |firmware|, firmware, firmware, true;
      table := Table([], 0, [], Unusable);
      planned, expected, history := [], [], [];
      journalAttempted, journalComplete, attempted, dirty, applied := false, false, false, false, false;
      disturbed, memoryFaults, callFaults := false, 0, 0;
    }

    // ------------------------------------------------------------ the environment

    /** A log call, flush or firmware check. */
    method Call() returns (status: Status)
      modifies `live, `disturbed, `memoryFaults, `callFaults
      ensures |live| == old(|live|)
      ensures memoryFaults >= old(memoryFaults) && callFaults >= old(callFaults)
      ensures memoryFaults == old(memoryFaults) ==> live == old(live) && disturbed == old(disturbed)
      ensures memoryFaults > old(memoryFaults) ==> disturbed
      ensures callFaults == old(callFaults) <==> status == Success
    {
      if * {
        var chaos: seq<Entry> :| |chaos| == |live|;
        live := chaos;
        disturbed, memoryFaults := true, memoryFaults + 1;
      }
      if * {
        var code: nat :| true;
        status := Foreign(code);
        callFaults := callFaults + 1;
      } else {
        status := Success;
      }
    }

    /** The two-byte store into the firmware table. */
    method Store(index: u16, priority: u16)
      requires index < |live|
      modifies `live, `memoryFaults
      ensures |live| == old(|live|) && memoryFaults >= old(memoryFaults)
      ensures memoryFaults == old(memoryFaults) ==> live == old(live)[index := old(live)[index].(priority := priority)]
    {
      if * {
        live := live[index := live[index].(priority := priority)];
      } else {
        var chaos: seq<Entry> :| |chaos| == |live|;
        live := chaos;
        memoryFaults := memoryFaults + 1;
      }
    }

    /** A store followed by the read-back of its row. */
    method StoreAndReadBack(index: u16, priority: u16, identity: Identity) returns (stuck: bool)
      requires index < |live| && live[index].identity == identity
      modifies `live, `memoryFaults
      ensures |live| == old(|live|) && memoryFaults >= old(memoryFaults)
      ensures stuck == (live[index] == Entry(priority, identity))
      ensures memoryFaults == old(memoryFaults) ==>
                stuck && live == old(live)[index := old(live)[index].(priority := priority)]
    {
      Store(index, priority);
      var after := live[index];
      stuck := after.priority == priority && after.identity == identity;
    }

    // ---------------------------------------------------------------- verification

    method VerifyLive(priorities: seq<u16>, flush: bool) returns (status: Status)
      requires |live| == |table.journal| == |priorities|
      modifies `live, `disturbed, `memoryFaults, `callFaults
      ensures |live| == old(|live|)
      ensures memoryFaults >= old(memoryFaults) && callFaults >= old(callFaults)
      ensures memoryFaults == old(memoryFaults) ==>
                live == old(live) && (disturbed == old(disturbed) || Matches(live, table.journal, priorities))
      ensures !disturbed ==> (!old(disturbed) && live == old(live)) || Matches(live, table.journal, priorities)
      ensures status == Success && !disturbed ==> Matches(live, table.journal, priorities)
      ensures status == Success && memoryFaults == old(memoryFaults) ==> Matches(live, table.journal, priorities)
      ensures (&& memoryFaults == old(memoryFaults) && callFaults == old(callFaults)
               && old(Matches(live, table.journal, priorities))) ==> status == Success
      ensures memoryFaults == old(memoryFaults) && old(!disturbed) ==> !disturbed
    {
      status := Call();
      if status != Success {
        return;
      }
      var scratch := live;
      for index := 0 to |scratch|
        invariant forall i :: 0 <= i < index ==> scratch[i] == table.journal[i].(priority := priorities[i])
        invariant live == scratch
      {
        if scratch[index].identity != table.journal[index].identity || scratch[index].priority != priorities[index] {
          var _ := Call();
          return CompromisedData;
        }
      }
      status := Call();
      if status != Success {
        return;
      }
      for index := 0 to |scratch|
        invariant live[..index] == scratch[..index]
      {
        if live[index] != scratch[index] {
          assert live != scratch;
          var _ := Call();
          return Aborted;
        }
      }
      assert live == scratch;
      disturbed := false;
      status := Call();
      if status == Success && flush {
        status := Call();
      }
    }

    // ------------------------------------------------------------------ the journal

    /** Captures the definitive journal.  The ordering source and the
        ROM/firmware evidence are read here and stay fixed afterwards. */
    method JournalAndValidate(selected: u16, corroborated: seq<bool>, order: DevOrder) returns (status: Status)
      requires Valid()
      requires |corroborated| == count
      requires order.Usable? ==> |order.ranks| == |order.disabled| == count
      modifies this
      ensures Valid()
      ensures status == Success ==>
                && journalComplete && !attempted && active && table.selected == selected
                && table.journal == old(snapshot) && (!disturbed ==> live == table.journal)
      // The plan follows the rows, the evidence and the order it was given.
      ensures status == Success ==>
                && table.order == order && PlanFollows(old(snapshot), selected, order, planned)
                && forall i :: 0 <= i < count ==>
                     (Eligible(table, i) <==> PolicyAllows(old(snapshot), selected, corroborated, order, i))
      // Without a fault it succeeds exactly on a first call over rows that can be planned.
      ensures memoryFaults == old(memoryFaults) && callFaults == old(callFaults) ==>
                (status == Success <==>
                   && old(active && !journalAttempted && live == snapshot)
                   && CanPlan(old(snapshot), selected, corroborated, order))
      ensures active == old(active) && attempted == old(attempted) && dirty == old(dirty) && history == old(history)
      ensures old(journalAttempted) ==> status != Success && journalAttempted && table == old(table)
      ensures status == Success ==> journalAttempted
      ensures memoryFaults >= old(memoryFaults) && callFaults >= old(callFaults)
    {
      hide IsPlan, Ledger, PlanFollows, CanPlan, PolicyAllows, HasUnranked, ProtectedZero;
      if !active {
        return InvalidParameter;
      }
      if journalAttempted || journalComplete || attempted {
        return AlreadyStarted;
      }
      journalAttempted := true;
      status := Call();  // owned copies, ROM report, writable range
      if status != Success {
        return;
      }
      if snapshot != live {
        var _ := Call();
        return Aborted;
      }
      table := PolicyTable(live, selected, corroborated, order);
      PolicyCanPlan(live, selected, corroborated, order);
      status := PlanAndReread();
      if status == Success {
        PolicyPlanFollows(table.journal, selected, corroborated, order, planned);
        MatchesJournal(live, table.journal);
        LedgerEmpty(table.journal, expected);
        journalComplete := true;
      }
    }

    /** Builds the plan and rereads the whole table against the journal. */
    method PlanAndReread() returns (status: Status)
      requires table.Valid() && |table.journal| == |live|
      modifies `live, `disturbed, `memoryFaults, `callFaults, `planned, `expected
      ensures |live| == old(|live|)
      ensures memoryFaults >= old(memoryFaults) && callFaults >= old(callFaults)
      ensures status == Success ==> IsPlan(table, planned) && expected == Priorities(table.journal)
      ensures status == Success && !disturbed ==> Matches(live, table.journal, expected)
      ensures status == Success ==>
                Eligible(table, table.selected) && !HasUnranked(table) && !ProtectedZero(table)
      ensures (&& memoryFaults == old(memoryFaults) && callFaults == old(callFaults) && old(live) == table.journal
               && Eligible(table, table.selected) && !HasUnranked(table) && !ProtectedZero(table)) ==> status == Success
    {
      MatchesJournal(live, table.journal);
      hide IsPlan, Matches, HasUnranked, ProtectedZero;
      status := Call();  // LegacyDevOrder
      if status != Success {
        return;
      }
      status, planned, expected := BuildPriorityPlan(table);
      if status != Success {
        return;
      }
      status := Call();  // durable journal
      if status != Success {
        return;
      }
      if live != table.journal {
        var _ := Call();
        return Aborted;
      }
      status := Call();  // strings
      if status != Success {
        return;
      }
      status := VerifyLive(expected, true);
    }

    method ValidateOriginal() returns (status: Status)
      requires Valid()
      modifies `live, `disturbed, `memoryFaults, `callFaults
      ensures Valid()
      ensures memoryFaults >= old(memoryFaults) && callFaults >= old(callFaults)
      ensures memoryFaults == old(memoryFaults) ==> live == old(live) && (old(!disturbed) ==> !disturbed)
      ensures status == Success ==> journalComplete && !dirty && (!disturbed ==> live == table.journal)
      ensures (&& journalComplete && !dirty && !old(disturbed)
               && memoryFaults == old(memoryFaults) && callFaults == old(callFaults)) ==> status == Success
    {
      hide IsPlan, Ledger, Matches;
      if !journalComplete || applied || dirty {
        return NotReady;
      }
      LedgerEmpty(table.journal, expected);
      status := Call();  // owned copies
      if status != Success {
        return;
      }
      status := Call();  // LegacyDevOrder
      if status != Success {
        return;
      }
      MatchesJournal(live, table.journal);
      status := VerifyLive(expected, true);
      MatchesJournal(live, table.journal);
    }

    // --------------------------------------------------------------------- writing

    method WritePriority(index: u16, requested: u16) returns (status: Status)
      requires Valid() && journalComplete && attempted && index < |live|
      requires |history| < MAX_PRIORITY_WRITES
      modifies `live, `disturbed, `memoryFaults, `callFaults, `history, `dirty, `expected
      ensures Valid()
      ensures memoryFaults >= old(memoryFaults) && callFaults >= old(callFaults)
      ensures old(|history|) <= |history| <= old(|history|) + 1
      ensures status == Success ==> expected == old(expected)[index := requested]
      ensures status == Success && old(expected)[index] != requested ==> dirty
      ensures memoryFaults == old(memoryFaults) && old(Tracks()) ==> Tracks()
      ensures memoryFaults == old(memoryFaults) && old(!disturbed) ==> !disturbed
      ensures (&& memoryFaults == old(memoryFaults) && callFaults == old(callFaults)
               && old(Tracks())) ==> status == Success
    {
      hide IsPlan, Ledger, RootedInJournal, Touched;
      assert |expected| == |live| by { LedgerLength(table.journal, history, expected); }
      var before := live[index];
      if before.identity != table.journal[index].identity || before.priority != expected[index] {
        var _ := Call();
        return CompromisedData;
      }
      if before.priority == requested {
        return Success;
      }
      if |history| >= MAX_PRIORITY_WRITES {
        assert false;
        return OutOfResources;
      }
      status := Call();  // durable write intent
      if status != Success {
        return;
      }
      if live[index] != before {
        var _ := Call();
        return Aborted;
      }
      status := StoreRecorded(index, before, requested);
    }

    /** Records the write, stores it, reads the row back and verifies the table. */
    method StoreRecorded(index: u16, before: Entry, requested: u16) returns (status: Status)
      requires Valid() && journalComplete && attempted && index < |live|
      requires |history| < MAX_PRIORITY_WRITES
      requires live[index] == before && index < |expected| && before.priority == expected[index]
      modifies `live, `disturbed, `memoryFaults, `callFaults, `history, `dirty, `expected
      ensures Valid() && dirty
      ensures memoryFaults >= old(memoryFaults) && callFaults >= old(callFaults)
      ensures |history| == old(|history|) + 1
      ensures status == Success ==> expected == old(expected)[index := requested]
      ensures memoryFaults == old(memoryFaults) && old(Tracks()) ==> Tracks()
      ensures memoryFaults == old(memoryFaults) && old(!disturbed) ==> !disturbed
      ensures (&& memoryFaults == old(memoryFaults) && callFaults == old(callFaults)
               && old(Tracks())) ==> status == Success
    {
      hide IsPlan, Ledger, RootedInJournal, Touched, Matches;
      if Tracks() {
        MatchesStore(live, table.journal, expected, index, requested);
      }
      var record := WriteRecord(index, before.priority, requested);
      LedgerWrite(table.journal, history, expected, record);
      history := history + [record];
      dirty := true;
      var stuck := StoreAndReadBack(index, requested, before.identity);
      if !stuck {
        var _ := Call();
        return DeviceError;
      }
      expected := expected[index := requested];
      status := VerifyLive(expected, false);
      if status != Success {
        var _ := Call();
        return;
      }
      status := Call();  // verified record
    }

    // ------------------------------------------------------------------- rolling back

    /** Undoes one record.  The outcome is the new overall status. */
    method UndoRecord(k: nat, overall: Status) returns (outcome: Status)
      requires Valid() && journalComplete && k < |history|
      modifies `live, `disturbed, `memoryFaults, `callFaults, `expected
      ensures Valid()
      ensures memoryFaults >= old(memoryFaults) && callFaults >= old(callFaults)
      ensures overall != Success ==> outcome != Success
      ensures memoryFaults == old(memoryFaults) && old(UndoesTo(live, table.journal, history, k + 1)) ==>
                UndoesTo(live, table.journal, history, k)
      ensures memoryFaults == old(memoryFaults) && old(Tracks()) ==> Tracks()
      ensures memoryFaults == old(memoryFaults) && old(!disturbed) ==> !disturbed
      ensures (&& memoryFaults == old(memoryFaults) && callFaults == old(callFaults)
               && old(Tracks()) && overall == Success) ==> outcome == Success
      ensures outcome == Success && old(ExpectsUndo(table.journal, history, expected, k + 1)) ==>
                ExpectsUndo(table.journal, history, expected, k)
    {
      hide IsPlan, Ledger, Undo, ExpectsUndo, UndoesTo, Matches;
      outcome := overall;
      var record := history[k];
      LedgerUndo(table.journal, history, expected, k);
      LedgerLength(table.journal, history, expected);
      if UndoesTo(live, table.journal, history, k + 1) || Matches(live, table.journal, expected) {
        IdentityAt(live, table.journal, history, expected, k);
      }
      if live[record.index].identity != table.journal[record.index].identity {
        var _ := Call();
        return CompromisedData;
      }
      var logged := Call();  // rollback intent
      if logged != Success && outcome == Success {
        outcome := logged;
      }
      if live[record.index].identity != table.journal[record.index].identity {
        var _ := Call();
        return CompromisedData;
      }
      outcome := StoreUndone(k, outcome);
    }

    /** Stores the old priority of a record and reads the row back. */
    method StoreUndone(k: nat, overall: Status) returns (outcome: Status)
      requires Valid() && journalComplete && k < |history| && history[k].index < |live|
      requires live[history[k].index].identity == table.journal[history[k].index].identity
      modifies `live, `disturbed, `memoryFaults, `callFaults, `expected
      ensures Valid()
      ensures memoryFaults >= old(memoryFaults) && callFaults >= old(callFaults)
      ensures overall != Success ==> outcome != Success
      ensures memoryFaults == old(memoryFaults) && old(UndoesTo(live, table.journal, history, k + 1)) ==>
                UndoesTo(live, table.journal, history, k)
      ensures memoryFaults == old(memoryFaults) && old(Tracks()) ==> Tracks()
      ensures memoryFaults == old(memoryFaults) && old(!disturbed) ==> !disturbed
      ensures (&& memoryFaults == old(memoryFaults) && callFaults == old(callFaults)
               && old(Tracks()) && overall == Success) ==> outcome == Success
      ensures outcome == Success && old(ExpectsUndo(table.journal, history, expected, k + 1)) ==>
                ExpectsUndo(table.journal, history, expected, k)
    {
      hide IsPlan, Ledger, Undo, ExpectsUndo, UndoesTo, Matches;
      var record := history[k];
      LedgerUndo(table.journal, history, expected, k);
      LedgerLength(table.journal, history, expected);
      UndoStored(live, table.journal, history, expected, k);
      var stuck := StoreAndReadBack(record.index, record.oldPriority, live[record.index].identity);
      if !stuck {
        var _ := Call();
        return DeviceError;
      }
      expected := expected[record.index := record.oldPriority];
      outcome := VerifyUndone(overall);
    }

    /** The per-record verification; its failures only lower the status. */
    method VerifyUndone(overall: Status) returns (outcome: Status)
      requires Valid() && journalComplete && dirty
      modifies `live, `disturbed, `memoryFaults, `callFaults
      ensures Valid()
      ensures memoryFaults >= old(memoryFaults) && callFaults >= old(callFaults)
      ensures overall != Success ==> outcome != Success
      ensures memoryFaults == old(memoryFaults) ==> live == old(live) && (old(!disturbed) ==> !disturbed)
      ensures (&& memoryFaults == old(memoryFaults) && callFaults == old(callFaults)
               && old(Tracks()) && overall == Success) ==> outcome == Success
    {
      hide IsPlan, Ledger, Matches;
      LedgerLength(table.journal, history, expected);
      outcome := overall;
      var verified := VerifyLive(expected, false);
      if verified != Success && outcome == Success {
        outcome := verified;
      }
      var logged := Call();
      if logged != Success && outcome == Success {
        outcome := logged;
      }
    }

    /** Reverse replay.  refused says that the range check forbade any store. */
    method RollbackInternal() returns (status: Status, ghost refused: bool)
      requires Valid() && dirty
      modifies `live, `disturbed, `memoryFaults, `callFaults, `history, `dirty, `applied, `expected
      ensures Valid()
      ensures memoryFaults >= old(memoryFaults) && callFaults >= old(callFaults)
      ensures status == Success ==> !dirty
      ensures dirty ==> history == old(history) && applied == old(applied)
      ensures refused ==> status != Success && dirty && callFaults > old(callFaults)
      ensures refused && memoryFaults == old(memoryFaults) ==> live == old(live)
      // A rollback whose stores stick restores the journal, whatever was logged.
      ensures (&& !refused && memoryFaults == old(memoryFaults)
               && old(Restorable(live, table.journal, history))) ==> live == table.journal
      ensures memoryFaults == old(memoryFaults) && old(Tracks()) ==> Tracks()
      ensures (&& memoryFaults == old(memoryFaults) && callFaults == old(callFaults)
               && old(Tracks())) ==> status == Success
      ensures memoryFaults == old(memoryFaults) && old(!disturbed) ==> !disturbed
    {
      hide IsPlan, Ledger, Restorable, UndoesTo, Matches, ExpectsUndo;
      refused := false;
      var overall := Call();  // writable range
      if overall != Success {
        refused := true;
        var _ := Call();
        return overall, refused;
      }
      var logged := Call();
      if logged != Success {
        overall := logged;
      }
      if old(Tracks()) {
        TracksRestorable(old(live), table.journal, history, expected);
      }
      if old(Restorable(live, table.journal, history)) {
        LedgerRestorable(old(live), table.journal, history, expected);
      }
      LedgerExpectsUndo(table.journal, history, expected);
      var k := |history|;
      while k > 0
        invariant 0 <= k <= |history|
        invariant Valid() && dirty && history == old(history) && applied == old(applied)
        invariant overall == Success ==> ExpectsUndo(table.journal, history, expected, k)
        invariant memoryFaults >= old(memoryFaults) && callFaults >= old(callFaults)
        invariant memoryFaults == old(memoryFaults) && old(Restorable(live, table.journal, history)) ==>
          UndoesTo(live, table.journal, history, k)
        invariant memoryFaults == old(memoryFaults) && old(Tracks()) ==> Tracks()
        invariant memoryFaults == old(memoryFaults) && old(!disturbed) ==> !disturbed
        invariant (&& memoryFaults == old(memoryFaults) && callFaults == old(callFaults)
                   && old(Tracks())) ==> overall == Success
      {
        k := k - 1;
        overall := UndoRecord(k, overall);
      }
      if memoryFaults == old(memoryFaults) && old(Restorable(live, table.journal, history)) {
        UndoesToNothing(live, table.journal, history);
      }
      if overall == Success {
        ExpectsNoUndo(table.journal, history, expected);
      }
      status := Conclude(overall);
    }

    /** Final verification and byte comparison; only success clears the flags. */
    method Conclude(overall: Status) returns (status: Status)
      requires Valid() && dirty
      requires overall == Success ==> expected == Priorities(table.journal)
      modifies `live, `disturbed, `memoryFaults, `callFaults, `history, `dirty, `applied
      ensures Valid()
      ensures memoryFaults >= old(memoryFaults) && callFaults >= old(callFaults)
      ensures status == Success ==> !dirty
      ensures dirty ==> history == old(history) && applied == old(applied)
      ensures memoryFaults == old(memoryFaults) ==> live == old(live) && (old(!disturbed) ==> !disturbed)
      ensures (&& overall == Success && memoryFaults == old(memoryFaults) && callFaults == old(callFaults)
               && old(Tracks() && live == table.journal)) ==> status == Success
    {
      hide IsPlan, Ledger;
      LedgerLength(table.journal, history, expected);
      status := overall;
      var verified := VerifyLive(expected, true);
      if verified != Success && status == Success {
        status := verified;
      }
      if live != table.journal {
        var _ := Call();
        return DeviceError;
      }
      disturbed := false;
      if status != Success {
        return;
      }
      LedgerEmpty(table.journal, expected);
      dirty, applied, history := false, false, [];
      status := Call();
    }

    // ---------------------------------------------------------- the public operations

    method ValidateApplied() returns (status: Status)
      requires Valid()
      modifies `live, `disturbed, `memoryFaults, `callFaults
      ensures Valid()
      ensures memoryFaults >= old(memoryFaults) && callFaults >= old(callFaults)
      ensures memoryFaults == old(memoryFaults) ==> live == old(live) && (old(!disturbed) ==> !disturbed)
      ensures status == Success ==> applied && (!disturbed ==> Matches(live, table.journal, planned))
      ensures (&& applied && memoryFaults == old(memoryFaults) && callFaults == old(callFaults)
               && old(Matches(live, table.journal, planned))) ==> status == Success
    {
      hide Ledger, Matches, Rank, Eligible;
      if !journalComplete || !applied || !dirty {
        return NotReady;
      }
      status := Call();  // owned copies
      if status != Success {
        return;
      }
      status := Call();  // LegacyDevOrder
      if status != Success {
        return;
      }
      status := VerifyLive(planned, true);
      if status != Success {
        return;
      }
      assert planned[table.selected] == 0 by { PlanGuarantees(table, planned); }
      var zeros := 0;
      for index := 0 to |planned|
        invariant zeros == if index > table.selected then 1 else 0
      {
        if planned[index] == 0 {
          zeros := zeros + 1;
          if index != table.selected {
            assert false;
            return CompromisedData;
          }
        }
      }
      if zeros != 1 || planned[table.selected] != 0 {
        assert false;
        return CompromisedData;
      }
      status := Call();
    }

    method Unprioritize() returns (status: Status)
      requires Valid() && attempted && !dirty
      modifies `live, `disturbed, `memoryFaults, `callFaults, `history, `dirty, `expected
      ensures Valid()
      ensures memoryFaults >= old(memoryFaults) && callFaults >= old(callFaults)
      ensures |history| <= |table.journal|
      ensures status == Success ==> PhaseOne(table, expected, |table.journal|)
      ensures memoryFaults == old(memoryFaults) && old(Tracks()) ==> Tracks()
      ensures memoryFaults == old(memoryFaults) && old(!disturbed) ==> !disturbed
      ensures (&& memoryFaults == old(memoryFaults) && callFaults == old(callFaults)
               && old(Tracks())) ==> status == Success
    {
      hide IsPlan, Ledger, Matches;
      LedgerEmpty(table.journal, expected);
      status := Success;
      for index := 0 to |table.journal|
        invariant Valid() && attempted && status == Success
        invariant |history| <= index
        invariant PhaseOne(table, expected, index)
        invariant memoryFaults >= old(memoryFaults) && callFaults >= old(callFaults)
        invariant memoryFaults == old(memoryFaults) && old(Tracks()) ==> Tracks()
        invariant memoryFaults == old(memoryFaults) && old(!disturbed) ==> !disturbed
      {
        if !Eligible(table, index) {
          continue;
        }
        status := WritePriority(index, BBS_UNPRIORITIZED_ENTRY);
        if status != Success {
          return;
        }
      }
    }

    method CountEligible() returns (count: nat)
      requires table.Valid()
      ensures count == |EligibleRows(table)| <= |table.journal|
    {
      count := 0;
      ghost var seen: set<int> := {};
      for index := 0 to |table.journal|
        invariant seen == set i | 0 <= i < index && Eligible(table, i)
        invariant count == |seen| <= index
      {
        if Eligible(table, index) {
          count := count + 1;
          seen := seen + {index as int};
        }
      }
      assert seen == EligibleRows(table);
    }

    /** Density makes the search for the next priority succeed. */
    method FindPlanned(priority: u16) returns (index: nat)
      requires table.Valid() && IsPlan(table, planned) && priority < |EligibleRows(table)|
      ensures index < |table.journal| && Eligible(table, index) && planned[index] == priority
    {
      ghost var row := PlannedAt(table, planned, priority);
      hide IsPlan;
      index := 0;
      while index < |table.journal|
        invariant index <= row < |table.journal| == |planned|
      {
        if Eligible(table, index) && planned[index] == priority {
          return;
        }
        index := index + 1;
      }
    }

    method AssignRanks() returns (status: Status)
      requires Valid() && attempted && |history| <= |table.journal|
      requires PhaseOne(table, expected, |table.journal|)
      modifies `live, `disturbed, `memoryFaults, `callFaults, `history, `dirty, `expected
      ensures Valid()
      ensures memoryFaults >= old(memoryFaults) && callFaults >= old(callFaults)
      ensures status == Success ==> dirty && expected == planned
      ensures memoryFaults == old(memoryFaults) && old(Tracks()) ==> Tracks()
      ensures memoryFaults == old(memoryFaults) && old(!disturbed) ==> !disturbed
      ensures (&& memoryFaults == old(memoryFaults) && callFaults == old(callFaults)
               && old(Tracks())) ==> status == Success
    {
      PlanLength(table, planned);
      hide IsPlan, Ledger, Matches, PhaseOne, PhaseTwo;
      var count := CountEligible();
      PhaseOneDone(table, planned, expected);
      status := Success;
      for priority := 0 to count
        invariant Valid() && attempted && status == Success
        invariant |history| <= |table.journal| + priority
        invariant PhaseTwo(table, planned, expected, priority)
        invariant priority > 0 ==> dirty
        invariant memoryFaults >= old(memoryFaults) && callFaults >= old(callFaults)
        invariant memoryFaults == old(memoryFaults) && old(Tracks()) ==> Tracks()
        invariant memoryFaults == old(memoryFaults) && old(!disturbed) ==> !disturbed
      {
        var index := FindPlanned(priority);
        LedgerLength(table.journal, history, expected);
        PhaseTwoStep(table, planned, expected, index, priority);
        status := WritePriority(index, priority);
        if status != Success {
          return;
        }
      }
      PhaseTwoDone(table, planned, expected, count);
    }

    /** The two-phase apply.  Whatever call fails, a failed apply is undone at once:
        if stores stick and the range check allows the replay, the table is the
        journal again. */
    method Apply() returns (status: Status, ghost refused: bool)
      requires Valid()
      modifies `live, `disturbed, `memoryFaults, `callFaults, `history, `dirty, `expected, `attempted, `applied
      ensures Valid()
      ensures memoryFaults >= old(memoryFaults) && callFaults >= old(callFaults)
      ensures old(attempted) ==> status != Success && history == old(history) && dirty == old(dirty)
      ensures status == Success ==> applied && dirty && (!disturbed ==> Matches(live, table.journal, planned))
      // Without a memory fault the live table is always what the context expects.
      ensures (&& old(active && journalComplete && !attempted && !disturbed)
               && memoryFaults == old(memoryFaults)) ==> Tracks() && !disturbed
      ensures (&& old(active && journalComplete && !attempted && !disturbed) && status != Success
               && memoryFaults == old(memoryFaults) && !refused) ==> live == table.journal
      ensures refused ==> old(attempted) || !old(active && journalComplete) || callFaults > old(callFaults)
      // Nothing but the environment can make a first apply fail.
      ensures (&& old(active && journalComplete && !attempted && !disturbed)
               && memoryFaults == old(memoryFaults) && callFaults == old(callFaults)) ==> status == Success
    {
      refused := true;
      if !active || !journalComplete {
        return InvalidParameter, true;
      }
      if attempted {
        return AlreadyStarted, true;
      }
      hide IsPlan, Ledger, Matches, PhaseOne, Restorable;
      LedgerEmpty(table.journal, expected);
      MatchesJournal(live, table.journal);
      attempted, refused := true, false;
      status := Prepare();
      if status != Success {
        return;
      }
      status := WriteAndValidate();
      if status != Success {
        status, refused := RollbackFailed(status);
      }
    }

    /** The checks right before the first write: the table, the log and
        LegacyDevOrder. */
    method Prepare() returns (status: Status)
      requires Valid() && active && attempted && !dirty
      modifies `live, `disturbed, `memoryFaults, `callFaults
      ensures Valid()
      ensures memoryFaults >= old(memoryFaults) && callFaults >= old(callFaults)
      ensures memoryFaults == old(memoryFaults) ==> live == old(live)
      ensures memoryFaults == old(memoryFaults) && old(Tracks()) ==> Tracks()
      ensures memoryFaults == old(memoryFaults) && old(!disturbed) ==> !disturbed
      ensures (&& memoryFaults == old(memoryFaults) && callFaults == old(callFaults)
               && old(Tracks() && !disturbed)) ==> status == Success
    {
      hide IsPlan, Ledger, Matches, Restorable;
      status := ValidateOriginal();
      if status != Success {
        return;
      }
      status := Call();  // log flush
      if status != Success {
        return;
      }
      status := Call();  // LegacyDevOrder
    }

    /** The failure path of an apply: immediate reverse rollback. */
    method RollbackFailed(failure: Status) returns (status: Status, ghost refused: bool)
      requires Valid() && journalComplete && failure != Success
      modifies `live, `disturbed, `memoryFaults, `callFaults, `history, `dirty, `expected, `applied
      ensures Valid() && status != Success
      ensures memoryFaults >= old(memoryFaults) && callFaults >= old(callFaults)
      ensures memoryFaults == old(memoryFaults) && old(Tracks()) ==> Tracks()
      ensures memoryFaults == old(memoryFaults) && old(!disturbed) ==> !disturbed
      ensures memoryFaults == old(memoryFaults) && old(Tracks()) && !refused ==> live == table.journal
      ensures refused ==> callFaults > old(callFaults)
    {
      hide IsPlan, Ledger, Matches, Restorable;
      status, refused := failure, false;
      var _ := Call();
      if !dirty {
        LedgerEmpty(table.journal, expected);
        MatchesJournal(live, table.journal);
        return;
      }
      if Tracks() {
        TracksRestorable(live, table.journal, history, expected);
      }
      var rollbackStatus: Status;
      rollbackStatus, refused := RollbackInternal();
      if rollbackStatus != Success {
        var _ := Call();
        status := rollbackStatus;
      }
    }

    /** Both phases and the final validation. */
    method WriteAndValidate() returns (status: Status)
      requires Valid() && attempted && !dirty
      modifies `live, `disturbed, `memoryFaults, `callFaults, `history, `dirty, `expected, `applied
      ensures Valid()
      ensures memoryFaults >= old(memoryFaults) && callFaults >= old(callFaults)
      ensures status == Success ==> applied && dirty && (!disturbed ==> Matches(live, table.journal, planned))
      ensures memoryFaults == old(memoryFaults) && old(Tracks()) ==> Tracks()
      ensures memoryFaults == old(memoryFaults) && old(!disturbed) ==> !disturbed
      ensures (&& memoryFaults == old(memoryFaults) && callFaults == old(callFaults)
               && old(Tracks())) ==> status == Success
    {
      hide IsPlan, Ledger, Matches, PhaseOne;
      status := Unprioritize();
      if status != Success {
        return;
      }
      status := AssignRanks();
      if status != Success {
        return;
      }
      applied := true;
      status := ValidateApplied();
      if status == Success {
        status := Call();
      }
    }

    method Rollback() returns (status: Status, ghost refused: bool)
      requires Valid()
      modifies `live, `disturbed, `memoryFaults, `callFaults, `history, `dirty, `applied, `expected
      ensures Valid()
      ensures memoryFaults >= old(memoryFaults) && callFaults >= old(callFaults)
      ensures status == Success ==> journalComplete && !dirty && !applied && (!disturbed ==> live == table.journal)
      ensures (&& old(dirty && Restorable(live, table.journal, history))
               && !refused && memoryFaults == old(memoryFaults)) ==> live == table.journal
      ensures (&& old(active && dirty && Tracks())
               && memoryFaults == old(memoryFaults) && callFaults == old(callFaults)) ==> status == Success
    {
      hide IsPlan, Ledger, Matches, Restorable;
      refused := true;
      if !active || !journalComplete {
        return InvalidParameter, true;
      }
      if !dirty && history == [] {
        status := ValidateOriginal();
        return;
      }
      status, refused := RollbackInternal();
    }

    /** Releasing the context is refused while the table may differ from the
        journal. */
    method Release() returns (status: Status)
      requires Valid()
      modifies this
      ensures Valid()
      ensures live == old(live) && disturbed == old(disturbed)
      ensures status == AccessDenied <==> old(active && (dirty || history != []))
      ensures status == AccessDenied ==>
                active && dirty && history == old(history) && table == old(table) && expected == old(expected)
      ensures status != AccessDenied ==> status == Success && !active && !journalComplete
      ensures status == Success && old(active && journalComplete && !disturbed) ==> live == old(table.journal)
    {
      hide IsPlan, Ledger;
      if active && (dirty || history != []) {
        return AccessDenied;
      }
      assert active && journalComplete && !disturbed ==> live == table.journal;
      hide BootTarget.Journaled, Table.Valid;
      active, snapshot := false, live;
      table := Table([], 0, [], Unusable);
      planned, expected, history := [], [], [];
      journalAttempted, journalComplete, attempted, dirty, applied := false, false, false, false, false;
      status := Success;
    }
  }

  lemma PlannedAt(t: Table, planned: seq<u16>, priority: u16) returns (row: nat)
    requires t.Valid() && IsPlan(t, planned) && priority < |EligibleRows(t)|
    ensures row < |t.journal| == |planned| && Eligible(t, row) && planned[row] == priority
  {
    PlanGuarantees(t, planned);
    assert Assigned(t, planned, priority);
    row :| 0 <= row < |planned| && Eligible(t, row) && planned[row] == priority;
  }

  lemma PlanLength(t: Table, planned: seq<u16>)
    requires t.Valid() && IsPlan(t, planned)
    ensures |planned| == |t.journal| && t.selected < |planned| && Eligible(t, t.selected)
    ensures |EligibleRows(t)| > 0
  {
    assert t.selected as int in EligibleRows(t);
  }

  /** Every run: any sequence of operations, in any order and with any
      environment, keeps the invariant; in particular a clean context means an
      undisturbed table is the journal, byte for byte. */
  method AnyRun(target: BootTarget, operations: seq<nat>, selected: u16, corroborated: seq<bool>, order: DevOrder)
    requires target.Valid() && |corroborated| == target.count
    requires order.Usable? ==> |order.ranks| == |order.disabled| == target.count
    modifies target
    ensures target.Valid()
    ensures target.journalComplete && !target.dirty && !target.disturbed ==> target.live == target.table.journal
    ensures target.dirty <==> target.history != []
  {
    hide IsPlan, Ledger;
    for k := 0 to |operations|
      invariant target.Valid()
    {
      match operations[k] % 6
      case 0 => var _ := target.JournalAndValidate(selected, corroborated, order);
      case 1 => var _, _ := target.Apply();
      case 2 => var _, _ := target.Rollback();
      case 3 => var _ := target.ValidateOriginal();
      case 4 => var _ := target.ValidateApplied();
      case _ => var _ := target.Release();
    }
  }
}
