/** The in-place target editor: a byte-level rewrite of three settings.

    The rewrite is specified as a sequence of pieces, so that "other lines are
    kept byte for byte" is a statement about the pieces, and proved to commute
    with the strict parser. */
module IniEdit {
  import opened Basics
  import opened IniText
  import opened IniParser
  import opened IniLines

  datatype Target = Gpu | Controller | Disk

  /** The three values as they are written; the disk name is encoded. */
  datatype Values = Values(gpu: string, controller: string, disk: string)

  function KeyOf(t: Target): string {
    match t
    case Gpu => TARGET_PCI
    case Controller => CONTROLLER_PCI
    case Disk => BBS_DESCRIPTION
  }

  function ValueOf(v: Values, t: Target): string {
    match t
    case Gpu => v.gpu
    case Controller => v.controller
    case Disk => v.disk
  }

  function TargetLine(v: Values, t: Target): string {
    KeyOf(t) + "=" + ValueOf(v, t)
  }

  // -------------------------------------------------------------- reading a line

  function Lower(c: char): char {
    if 'A' <= c <= 'Z' then (c as int + 32) as char else c
  }

  predicate EqualIgnoringCase(a: string, b: string) {
    |a| == |b| && forall i :: 0 <= i < |a| ==> Lower(a[i]) == Lower(b[i])
  }

  function TrimRightCr(s: string): string {
    if s != "" && (IsSpace(s[|s| - 1]) || s[|s| - 1] == '\r') then TrimRightCr(s[..|s| - 1]) else s
  }

  /** A line without its ending and surrounding blanks. */
  function LineText(line: string): string {
    var body := if line != "" && line[|line| - 1] == '\n' then line[..|line| - 1] else line;
    TrimRightCr(TrimLeft(body))
  }

  datatype Area = Elsewhere | InVideo | InBoot

  datatype Kind = Plain | Header(area: Area) | Assigns(target: Target)

  function AreaNamed(name: string): Area {
    if EqualIgnoringCase(name, "Video") then InVideo
    else if EqualIgnoringCase(name, "Boot") then InBoot
    else Elsewhere
  }

  function KindOf(text: string, area: Area): Kind {
    if |text| >= 2 && text[0] == '[' && text[|text| - 1] == ']' then Header(AreaNamed(text[1..|text| - 1]))
    else if text != "" && text[0] != '#' && text[0] != ';' then
      var e := FirstEquals(text);
      if e == |text| then Plain
      else
        var key := TrimRight(text[..e]);
        if area == InVideo && EqualIgnoringCase(key, TARGET_PCI) then Assigns(Gpu)
        else if area == InBoot && EqualIgnoringCase(key, CONTROLLER_PCI) then Assigns(Controller)
        else if area == InBoot && EqualIgnoringCase(key, BBS_DESCRIPTION) then Assigns(Disk)
        else Plain
    else Plain
  }

  /** The length of the first line, its line feed included. */
  function LineLength(rest: string): (n: nat)
    requires rest != ""
    ensures 1 <= n <= |rest|
    ensures '\n' !in rest[..n - 1]
    ensures rest[n - 1] == '\n' || n == |rest|
  {
    if rest[0] == '\n' || |rest| == 1 then 1
    else
      var n := 1 + LineLength(rest[1..]);
      assert rest[..n - 1] == [rest[0]] + rest[1..][..n - 2];
      n
  }

  // ------------------------------------------------------------------- the rewrite

  datatype Piece =
    | Kept(source: string)
    | Replaced(source: string, target: Target, result: string)
    | Inserted(result: string)

  function SourceOf(p: Piece): string {
    if p.Inserted? then "" else p.source
  }

  function ResultOf(p: Piece): string {
    if p.Kept? then p.source else p.result
  }

  function Sources(ps: seq<Piece>): string {
    if ps == [] then "" else SourceOf(ps[0]) + Sources(ps[1..])
  }

  function Results(ps: seq<Piece>): string {
    if ps == [] then "" else ResultOf(ps[0]) + Results(ps[1..])
  }

  /** The description line added when [Boot] has none; it ends an open line
      first. */
  function Insertion(output: string, v: Values): string {
    (if AtBoundary(output) then "" else "\r\n") + TargetLine(v, Disk) + "\r\n"
  }

  /** Where the rewrite stands: the input still to read, the current section
      and the targets already written. */
  datatype Cursor = Cursor(rest: string, area: Area, seen: set<Target>)
  {
    /** The description is still owed to the section being left. */
    predicate Owes() {
      area == InBoot && Disk !in seen
    }
  }

  datatype Turn = Finished | Rejected | Emit(piece: Piece, next: Cursor)

  function LineTurn(c: Cursor, output: string, v: Values): (t: Turn)
    requires c.rest != ""
    ensures !t.Finished?
    ensures t.Emit? ==>
              || |t.next.rest| < |c.rest|
              || (t.next.rest == c.rest && c.Owes() && !t.next.Owes())
  {
    var n := LineLength(c.rest);
    var line := c.rest[..n];
    var kind := KindOf(LineText(line), c.area);
    if kind.Header? && c.Owes() then Emit(Inserted(Insertion(output, v)), c.(seen := c.seen + {Disk}))
    else if kind.Header? then Emit(Kept(line), Cursor(c.rest[n..], kind.area, c.seen))
    else if kind.Assigns? && kind.target in c.seen then Rejected
    else if kind.Assigns? then
      Emit(Replaced(line, kind.target, TargetLine(v, kind.target) + "\r\n"),
           Cursor(c.rest[n..], c.area, c.seen + {kind.target}))
    else Emit(Kept(line), c.(rest := c.rest[n..]))
  }

  function NextTurn(c: Cursor, output: string, v: Values): (t: Turn)
    ensures t.Finished? ==> c.rest == "" && !c.Owes() && c.seen == {Gpu, Controller, Disk}
    ensures t.Emit? ==>
              || |t.next.rest| < |c.rest|
              || (t.next.rest == c.rest && c.Owes() && !t.next.Owes())
  {
    if c.rest != "" then LineTurn(c, output, v)
    else if c.Owes() then Emit(Inserted(Insertion(output, v)), c.(seen := c.seen + {Disk}))
    else if c.seen == {Gpu, Controller, Disk} then Finished
    else Rejected
  }

  function EditFrom(c: Cursor, output: string, v: Values): Option<seq<Piece>>
    decreases |c.rest|, if c.Owes() then 1 else 0
  {
    match NextTurn(c, output, v)
    case Finished => Some([])
    case Rejected => None
    case Emit(piece, next) =>
      Cons(piece, EditFrom(next, output + ResultOf(piece), v))
  }

  function Cons(p: Piece, rest: Option<seq<Piece>>): Option<seq<Piece>> {
    if rest.None? then None else Some([p] + rest.value)
  }

  function Edit(input: string, v: Values): Option<seq<Piece>> {
    EditFrom(Cursor(input, Elsewhere, {}), "", v)
  }

  // ------------------------------------------------------------------ what is kept

  /** One line: nothing follows its line feed. */
  predicate IsLine(s: string) {
    s != "" && '\n' !in s[..|s| - 1]
  }

  /** Every piece is one input line kept as it is, one line that assigns a target
      replaced by the new assignment, or the one inserted description. */
  ghost predicate Faithful(p: Piece, v: Values) {
    match p
    case Kept(source) => IsLine(source)
    case Replaced(source, t, result) =>
      && IsLine(source) && result == TargetLine(v, t) + "\r\n" && AssignsKey(LineText(source), KeyOf(t))
    case Inserted(result) =>
      result == TargetLine(v, Disk) + "\r\n" || result == "\r\n" + TargetLine(v, Disk) + "\r\n"
  }

  /** A line text that assigns the key, in any letter case. */
  predicate AssignsKey(text: string, key: string) {
    '=' in text && EqualIgnoringCase(TrimRight(text[..FirstEquals(text)]), key)
  }

  lemma TurnIsFaithful(c: Cursor, output: string, v: Values)
    requires NextTurn(c, output, v).Emit?
    ensures var t := NextTurn(c, output, v);
      SourceOf(t.piece) + t.next.rest == c.rest && Faithful(t.piece, v)
  {
    hide NextTurn, KindOf, LineText, LineLength, Insertion, TargetLine, Faithful, IsLine;
    if c.rest == "" {
      if c.Owes() {
        EndOwes(c, output, v);
        InsertionIsFaithful(output, v);
      } else {
        EndSettled(c, output, v);
      }
    } else {
      var n := LineLength(c.rest);
      var kind := CursorKind(c);
      assert c.rest[..n] + c.rest[n..] == c.rest;
      if kind.Header? && c.Owes() {
        HeaderOwes(c, output, v);
        InsertionIsFaithful(output, v);
      } else if kind.Header? {
        HeaderKept(c, output, v);
        FirstLineIsLine(c.rest);
        KeptIsFaithful(c.rest[..n], v);
      } else if kind.Assigns? {
        if kind.target in c.seen {
          AssignsAgain(c, output, v);
        } else {
          AssignsReplaced(c, output, v);
          FirstLineIsLine(c.rest);
          ReplacedIsFaithful(c.rest[..n], c.area, v);
        }
      } else {
        PlainKept(c, output, v);
        FirstLineIsLine(c.rest);
        KeptIsFaithful(c.rest[..n], v);
      }
    }
  }

  lemma FirstLineIsLine(rest: string)
    requires rest != ""
    ensures IsLine(rest[..LineLength(rest)])
  {
    var n := LineLength(rest);
    assert rest[..n][..n - 1] == rest[..n - 1];
  }

  lemma KeptIsFaithful(line: string, v: Values)
    requires IsLine(line)
    ensures Faithful(Kept(line), v)
  {
  }

  lemma InsertionIsFaithful(output: string, v: Values)
    ensures Faithful(Inserted(Insertion(output, v)), v)
  {
    hide TargetLine;
    assert "" + TargetLine(v, Disk) + "\r\n" == TargetLine(v, Disk) + "\r\n";
  }

  lemma ReplacedIsFaithful(line: string, area: Area, v: Values)
    requires IsLine(line) && KindOf(LineText(line), area).Assigns?
    ensures var t := KindOf(LineText(line), area).target;
      Faithful(Replaced(line, t, TargetLine(v, t) + "\r\n"), v)
  {
    hide KindOf, LineText, TargetLine, AssignsKey, IsLine;
    KindIsFaithful(LineText(line), area);
  }

  lemma KindIsFaithful(text: string, area: Area)
    ensures KindOf(text, area).Assigns? ==> AssignsKey(text, KeyOf(KindOf(text, area).target))
  {
    assert FirstEquals(text) < |text| ==> text[FirstEquals(text)] in text;
    hide Lower, EqualIgnoringCase, TrimRight, AreaNamed;
  }

  /** Rewriting keeps all other bytes in order: the pieces' sources are the
      input, and only target assignments change.  This holds for any input. */
  lemma {:induction false} EditKeepsOtherLines(c: Cursor, output: string, v: Values)
    requires EditFrom(c, output, v).Some?
    ensures var ps := EditFrom(c, output, v).value;
      Sources(ps) == c.rest && forall p :: p in ps ==> Faithful(p, v)
    decreases |c.rest|, if c.Owes() then 1 else 0
  {
    hide NextTurn, Faithful;
    var ps := EditFrom(c, output, v).value;
    var t := NextTurn(c, output, v);
    if t.Emit? {
      TurnIsFaithful(c, output, v);
      EditKeepsOtherLines(t.next, output + ResultOf(t.piece), v);
      assert ps[1..] == EditFrom(t.next, output + ResultOf(t.piece), v).value;
    }
  }

  /** The piece writes the target: it replaces its assignment, or inserts the
      missing description. */
  predicate Sets(p: Piece, t: Target) {
    match p
    case Kept(_) => false
    case Replaced(_, u, _) => u == t
    case Inserted(_) => t == Disk
  }

  function SetCount(ps: seq<Piece>, t: Target): nat {
    if ps == [] then 0 else (if Sets(ps[0], t) then 1 else 0) + SetCount(ps[1..], t)
  }

  lemma TurnSetsNew(c: Cursor, output: string, v: Values, u: Target)
    requires NextTurn(c, output, v).Emit?
    ensures var t := NextTurn(c, output, v);
      && (Sets(t.piece, u) ==> u !in c.seen)
      && (u in t.next.seen <==> u in c.seen || Sets(t.piece, u))
  {
    hide KindOf, LineText, LineLength, Insertion, TargetLine;
  }

  lemma {:induction false} EditSetsTargets(c: Cursor, output: string, v: Values, u: Target)
    requires EditFrom(c, output, v).Some?
    ensures SetCount(EditFrom(c, output, v).value, u) == if u in c.seen then 0 else 1
    decreases |c.rest|, if c.Owes() then 1 else 0
  {
    hide NextTurn, Sets;
    var ps := EditFrom(c, output, v).value;
    var t := NextTurn(c, output, v);
    if t.Emit? {
      TurnSetsNew(c, output, v, u);
      EditSetsTargets(t.next, output + ResultOf(t.piece), v, u);
      assert ps[1..] == EditFrom(t.next, output + ResultOf(t.piece), v).value;
    } else {
      assert u in c.seen;
    }
  }

  /** The edit of a whole text: its pieces cover the input in order, they change
      nothing but target assignments, and they write every target exactly once.
      So the description is inserted, once, exactly when none is assigned. */
  lemma EditIsExact(input: string, v: Values)
    requires Edit(input, v).Some?
    ensures var ps := Edit(input, v).value;
      && Sources(ps) == input && (forall p :: p in ps ==> Faithful(p, v))
      && forall t :: SetCount(ps, t) == 1
  {
    hide EditFrom, Faithful;
    var c := Cursor(input, Elsewhere, {});
    EditKeepsOtherLines(c, "", v);
    forall t: Target ensures SetCount(Edit(input, v).value, t) == 1 {
      EditSetsTargets(c, "", v, t);
    }
  }

  // -------------------------------------------------------------- the editor itself

  datatype Status = Edited | Invalid | Capacity

  /** What remains of a rewrite after some pieces have been emitted. */
  ghost predicate Continues(whole: Option<seq<Piece>>, done: seq<Piece>, remaining: Option<seq<Piece>>) {
    if remaining.None? then whole.None? else whole == Some(done + remaining.value)
  }

  lemma {:induction false} ResultsConcat(a: seq<Piece>, b: seq<Piece>)
    ensures Results(a + b) == Results(a) + Results(b)
  {
    if a == [] {
      assert a + b == b;
    } else {
      assert (a + b)[1..] == a[1..] + b;
      ResultsConcat(a[1..], b);
    }
  }

  lemma Extend(whole: Option<seq<Piece>>, done: seq<Piece>, p: Piece, remaining: Option<seq<Piece>>)
    requires Continues(whole, done, Cons(p, remaining))
    ensures Continues(whole, done + [p], remaining)
    ensures Results(done + [p]) == Results(done) + ResultOf(p)
    ensures whole.Some? ==> |Results(whole.value)| >= |Results(done) + ResultOf(p)|
  {
    ResultsConcat(done, [p]);
    assert Results([p]) == ResultOf(p) + Results([]);
    if remaining.Some? {
      assert done + ([p] + remaining.value) == done + [p] + remaining.value;
      ResultsConcat(done + [p], remaining.value);
    }
  }

  /** The state of the rewrite loop. */
  ghost predicate Underway(whole: Option<seq<Piece>>, done: seq<Piece>, c: Cursor, output: string, v: Values) {
    Continues(whole, done, EditFrom(c, output, v)) && Results(done) == output
  }

  lemma TakeTurn(whole: Option<seq<Piece>>, done: seq<Piece>, c: Cursor, output: string, v: Values)
    requires NextTurn(c, output, v).Emit? && Underway(whole, done, c, output, v)
    ensures var t := NextTurn(c, output, v);
      && Underway(whole, done + [t.piece], t.next, output + ResultOf(t.piece), v)
      && (whole.Some? ==> |Results(whole.value)| >= |output| + |ResultOf(t.piece)|)
  {
    hide NextTurn, Continues, Results, Cons, ResultOf;
    var t := NextTurn(c, output, v);
    assert EditFrom(c, output, v) == Cons(t.piece, EditFrom(t.next, output + ResultOf(t.piece), v));
    Extend(whole, done, t.piece, EditFrom(t.next, output + ResultOf(t.piece), v));
  }

  lemma StartEdit(input: string, v: Values)
    ensures Underway(Edit(input, v), [], Cursor(input, Elsewhere, {}), "", v)
  {
    var whole := Edit(input, v);
    if whole.Some? {
      assert [] + whole.value == whole.value;
    }
  }

  lemma StopEdit(whole: Option<seq<Piece>>, done: seq<Piece>, c: Cursor, output: string, v: Values)
    requires !NextTurn(c, output, v).Emit? && Underway(whole, done, c, output, v)
    ensures NextTurn(c, output, v).Finished? ==> whole.Some? && Results(whole.value) == output
    ensures NextTurn(c, output, v).Rejected? ==> whole.None?
  {
    hide NextTurn;
    assert done + [] == done;
  }

  // ------------------------------------------------------- scanning one input line

  lemma {:induction false} LineLengthIs(rest: string, n: nat)
    requires 1 <= n <= |rest| && '\n' !in rest[..n - 1] && (rest[n - 1] == '\n' || n == |rest|)
    ensures LineLength(rest) == n
  {
    if n > 1 {
      assert rest[0] == rest[..n - 1][0];
      assert rest[1..][..n - 2] == rest[..n - 1][1..];
      LineLengthIs(rest[1..], n - 1);
    }
  }

  /** Finds the end of the line at a position and the bounds of its text. */
  method ReadLine(input: string, position: nat) returns (next: nat, start: nat, trimmedEnd: nat)
    requires position < |input|
    ensures position < next <= |input| && next - position == LineLength(input[position..])
    ensures position <= start <= trimmedEnd <= next
    ensures input[start..trimmedEnd] == LineText(input[position..next])
  {
    hide LineLength, LineText, TrimLeft, TrimRightCr;
    var end := position;
    while end < |input| && input[end] != '\n'
      invariant position <= end <= |input|
      invariant '\n' !in input[position..end]
    {
      assert input[position..end + 1] == input[position..end] + [input[end]];
      end := end + 1;
    }
    next := if end < |input| then end + 1 else end;
    LineBody(input, position, end, next);
    start, trimmedEnd := TrimBounds(input, position, end);
  }

  lemma LineBody(input: string, position: nat, end: nat, next: nat)
    requires position < |input| && position <= end <= |input| && '\n' !in input[position..end]
    requires if end < |input| then input[end] == '\n' && next == end + 1 else next == end
    ensures position < next && next - position == LineLength(input[position..])
    ensures LineText(input[position..next]) == TrimRightCr(TrimLeft(input[position..end]))
  {
    hide LineLength, TrimRightCr, TrimLeft;
    var rest, line, body := input[position..], input[position..next], input[position..end];
    assert rest[next - position - 1] == input[next - 1];
    assert end == |input| ==> input[next - 1] == body[|body| - 1];
    assert rest[..next - position - 1] == if end < |input| then body else body[..|body| - 1];
    LineLengthIs(rest, next - position);
    assert line[|line| - 1] == input[next - 1];
    assert (if line[|line| - 1] == '\n' then line[..|line| - 1] else line) == body;
  }

  lemma TrimLeftAt(input: string, start: nat, end: nat)
    requires start <= end <= |input|
    ensures start < end && IsSpace(input[start]) ==> TrimLeft(input[start..end]) == TrimLeft(input[start + 1..end])
    ensures start == end || !IsSpace(input[start]) ==> TrimLeft(input[start..end]) == input[start..end]
  {
    if start < end {
      assert input[start..end][1..] == input[start + 1..end];
    }
  }

  lemma TrimRightAt(input: string, start: nat, end: nat)
    requires start <= end <= |input|
    ensures start < end && (input[end - 1] == '\r' || IsSpace(input[end - 1])) ==>
              TrimRightCr(input[start..end]) == TrimRightCr(input[start..end - 1])
    ensures start == end || !(input[end - 1] == '\r' || IsSpace(input[end - 1])) ==>
              TrimRightCr(input[start..end]) == input[start..end]
  {
    if start < end {
      assert input[start..end][..end - start - 1] == input[start..end - 1];
    }
  }

  method TrimBounds(input: string, from: nat, end: nat) returns (start: nat, trimmedEnd: nat)
    requires from <= end <= |input|
    ensures from <= start <= trimmedEnd <= end
    ensures input[start..trimmedEnd] == TrimRightCr(TrimLeft(input[from..end]))
  {
    hide TrimLeft, TrimRightCr;
    ghost var body := input[from..end];
    start, trimmedEnd := from, end;
    while start < trimmedEnd && IsSpace(input[start])
      invariant from <= start <= trimmedEnd == end
      invariant TrimLeft(body) == TrimLeft(input[start..end])
    {
      TrimLeftAt(input, start, end);
      start := start + 1;
    }
    TrimLeftAt(input, start, end);
    while trimmedEnd > start && (input[trimmedEnd - 1] == '\r' || IsSpace(input[trimmedEnd - 1]))
      invariant start <= trimmedEnd <= end
      invariant TrimRightCr(TrimLeft(body)) == TrimRightCr(input[start..trimmedEnd])
    {
      TrimRightAt(input, start, trimmedEnd);
      trimmedEnd := trimmedEnd - 1;
    }
    TrimRightAt(input, start, trimmedEnd);
  }

  /** The bounded rewrite.  It succeeds exactly when the rewritten text is
      shorter than the capacity. */
  method EditTargets(input: string, gpu: string, controller: string, disk: string, capacity: nat)
    returns (status: Status, output: string)
    ensures capacity == 0 ==> status == Capacity
    ensures capacity > 0 && !Representable(disk) ==> status == Invalid
    ensures Representable(disk) ==>
      var whole := Edit(input, Values(gpu, controller, Encode(disk)));
      && (status == Edited <==> whole.Some? && |Results(whole.value)| < capacity)
      && (status == Edited ==> output == Results(whole.value))
      && (whole.Some? && |Results(whole.value)| >= capacity ==> status == Capacity)
  {
    if capacity == 0 {
      return Capacity, "";
    }
    if !IsRepresentable(disk) {
      return Invalid, "";
    }
    status, output := Rewrite(input, Values(gpu, controller, Encode(disk)), capacity);
  }

  method Rewrite(input: string, v: Values, capacity: nat) returns (status: Status, output: string)
    requires capacity > 0
    ensures var whole := Edit(input, v);
      && (status == Edited <==> whole.Some? && |Results(whole.value)| < capacity)
      && (status == Edited ==> output == Results(whole.value))
      && (whole.Some? && |Results(whole.value)| >= capacity ==> status == Capacity)
  {
    hide NextTurn, EditFrom, Edit, Results, Underway, LineLength, LineText, KindOf, Insertion;
    output := "";
    var position, area, seen := 0, Elsewhere, {};
    ghost var whole := Edit(input, v);
    ghost var done: seq<Piece> := [];
    StartEdit(input, v);
    assert input[0..] == input;
    while position < |input|
      invariant 0 <= position <= |input|
      invariant Underway(whole, done, Cursor(input[position..], area, seen), output, v)
      invariant |output| < capacity
    {
      var next, start, trimmedEnd := ReadLine(input, position);
      var line := input[position..next];
      var kind := KindOf(input[start..trimmedEnd], area);
      ghost var rest := input[position..];
      assert rest[..next - position] == line && rest[next - position..] == input[next..];
      if kind.Header? {
        if area == InBoot && Disk !in seen {
          HeaderOwes(Cursor(rest, area, seen), output, v);
          TakeTurn(whole, done, Cursor(rest, area, seen), output, v);
          var added := Insertion(output, v);
          if |added| >= capacity - |output| {
            return Capacity, "";
          }
          output, seen, done := output + added, seen + {Disk}, done + [Inserted(added)];
        }
        HeaderKept(Cursor(rest, area, seen), output, v);
        TakeTurn(whole, done, Cursor(rest, area, seen), output, v);
        area := kind.area;
      } else if kind.Assigns? {
        if kind.target in seen {
          AssignsAgain(Cursor(rest, area, seen), output, v);
          StopEdit(whole, done, Cursor(rest, area, seen), output, v);
          return Invalid, "";
        }
        AssignsReplaced(Cursor(rest, area, seen), output, v);
        TakeTurn(whole, done, Cursor(rest, area, seen), output, v);
        var result := TargetLine(v, kind.target) + "\r\n";
        if |result| >= capacity - |output| {
          return Capacity, "";
        }
        output, done := output + result, done + [Replaced(line, kind.target, result)];
        position, seen := next, seen + {kind.target};
        continue;
      } else {
        PlainKept(Cursor(rest, area, seen), output, v);
        TakeTurn(whole, done, Cursor(rest, area, seen), output, v);
      }
      if |line| >= capacity - |output| {
        return Capacity, "";
      }
      output, done := output + line, done + [Kept(line)];
      position := next;
    }
    assert input[position..] == "";
    if area == InBoot && Disk !in seen {
      EndOwes(Cursor("", area, seen), output, v);
      TakeTurn(whole, done, Cursor("", area, seen), output, v);
      var added := Insertion(output, v);
      if |added| >= capacity - |output| {
        return Capacity, "";
      }
      output, seen, done := output + added, seen + {Disk}, done + [Inserted(added)];
    }
    EndSettled(Cursor("", area, seen), output, v);
    StopEdit(whole, done, Cursor("", area, seen), output, v);
    status := if seen == {Gpu, Controller, Disk} then Edited else Invalid;
  }

  // The turns, case by case.

  function CursorKind(c: Cursor): Kind
    requires c.rest != ""
  {
    KindOf(LineText(c.rest[..LineLength(c.rest)]), c.area)
  }

  lemma HeaderOwes(c: Cursor, output: string, v: Values)
    requires c.rest != "" && CursorKind(c).Header? && c.Owes()
    ensures NextTurn(c, output, v) == Emit(Inserted(Insertion(output, v)), c.(seen := c.seen + {Disk}))
  {
    hide KindOf, LineText, LineLength, Insertion;
  }

  lemma HeaderKept(c: Cursor, output: string, v: Values)
    requires c.rest != "" && CursorKind(c).Header? && !c.Owes()
    ensures var n := LineLength(c.rest);
      NextTurn(c, output, v) == Emit(Kept(c.rest[..n]), Cursor(c.rest[n..], CursorKind(c).area, c.seen))
  {
    hide KindOf, LineText, LineLength, Insertion;
  }

  lemma AssignsAgain(c: Cursor, output: string, v: Values)
    requires c.rest != "" && CursorKind(c).Assigns? && CursorKind(c).target in c.seen
    ensures NextTurn(c, output, v) == Rejected
  {
    hide KindOf, LineText, LineLength, Insertion;
  }

  lemma AssignsReplaced(c: Cursor, output: string, v: Values)
    requires c.rest != "" && CursorKind(c).Assigns? && CursorKind(c).target !in c.seen
    ensures var n, t := LineLength(c.rest), CursorKind(c).target;
      NextTurn(c, output, v) ==
      Emit(Replaced(c.rest[..n], t, TargetLine(v, t) + "\r\n"), Cursor(c.rest[n..], c.area, c.seen + {t}))
  {
    hide KindOf, LineText, LineLength, Insertion, TargetLine;
  }

  lemma PlainKept(c: Cursor, output: string, v: Values)
    requires c.rest != "" && CursorKind(c).Plain?
    ensures var n := LineLength(c.rest);
      NextTurn(c, output, v) == Emit(Kept(c.rest[..n]), c.(rest := c.rest[n..]))
  {
    hide KindOf, LineText, LineLength, Insertion;
  }

  lemma EndOwes(c: Cursor, output: string, v: Values)
    requires c.rest == "" && c.Owes()
    ensures NextTurn(c, output, v) == Emit(Inserted(Insertion(output, v)), c.(seen := c.seen + {Disk}))
  {
    hide Insertion;
  }

  lemma EndSettled(c: Cursor, output: string, v: Values)
    requires c.rest == "" && !c.Owes()
    ensures NextTurn(c, output, v) == if c.seen == {Gpu, Controller, Disk} then Finished else Rejected
  {
  }
}
