/** When an edit commutes with parsing, told from the input alone: the edit exists,
    and a description is only inserted where the parser is inside [Boot] and has no
    description of its own. */
module IniEditCondition {
  import opened Basics
  import opened IniText
  import opened IniParser
  import opened IniLines
  import opened IniEdit
  import opened IniEditCommutes
  import opened IniEditExact

  // ---------------------------------------------------------------- single targets

  predicate Has(c: Config, t: Target) {
    match t
    case Gpu => c.targetPci.Some?
    case Controller => c.controllerPci.Some?
    case Disk => c.disk.Some?
  }

  /** The configuration with one target taken from another. */
  function Put(c: Config, t: Target, from: Config): Config {
    match t
    case Gpu => c.(targetPci := from.targetPci)
    case Controller => c.(controllerPci := from.controllerPci)
    case Disk => c.(disk := from.disk)
  }

  predicate Agree(c: Config, d: Config, t: Target) {
    c == Put(c, t, d)
  }

  /** The step sets exactly this target, which was free. */
  predicate Sets1(a: State, a': State, t: Target) {
    && Belongs(t, a.section) && !Has(a.config, t) && Has(a'.config, t)
    && a' == a.(config := Put(a.config, t, a'.config))
  }

  predicate SetsNone(a: State, a': State) {
    forall t :: Agree(a.config, a'.config, t)
  }

  /** What a setting does to one configuration it does to another with the same
      settings, unless it sets a target that is taken there. */
  lemma SettingEffect(c: Config, d: Config, section: Section, key: string, value: string, c': Config)
    returns (t: Option<Target>)
    requires c.settings == d.settings && SetKeyValue(c, section, key, value) == Ok(c')
    ensures t.None? ==> (forall u :: Agree(c, c', u)) &&
                        SetKeyValue(d, section, key, value) == Ok(d.(settings := c'.settings))
    ensures t.Some? ==> && Belongs(t.value, section)
                        && !Has(c, t.value) && Has(c', t.value) && c' == Put(c, t.value, c')
                        && SetKeyValue(d, section, key, value) ==
                           if Has(d, t.value) then Err(CompromisedData) else Ok(Put(d, t.value, c'))
  {
    hide SetSetting, DecodeDisk, ParseAddress;
    t := if section == Video && key == TARGET_PCI then Some(Gpu)
         else if section == Boot && key == CONTROLLER_PCI then Some(Controller)
         else if section == Boot && key == BBS_DESCRIPTION then Some(Disk)
         else None;
  }

  lemma LineEffect(a: State, b: State, line: string, a': State) returns (t: Option<Target>)
    requires Same(a, b) && ParseLine(Ok(a), line) == Ok(a')
    ensures t.None? ==> SetsNone(a, a') &&
                        ParseLine(Ok(b), line) == Ok(a'.(config := b.config.(settings := a'.config.settings)))
    ensures t.Some? ==> && Sets1(a, a', t.value)
                        && ParseLine(Ok(b), line) ==
                           if Has(b.config, t.value) then Err(CompromisedData)
                           else Ok(b.(config := Put(b.config, t.value, a'.config)))
  {
    var text := Trim(line);
    hide Trim, LineOk, SplitPair, SectionOf, SetKeyValue;
    if !IsBlankOrComment(text) && text[0] != '[' {
      var pair := SplitPair(text).value;
      t := SettingEffect(a.config, b.config, a.section, pair.0, pair.1, a'.config);
    } else {
      t := None;
    }
  }

  /** A line with a target's key that the parser accepts sets that target. */
  lemma KeyedLineSets(st: State, lead: string, key: string, gap: string, x: string, t: Target, st': State)
    requires Blank(lead) && Blank(gap) && '=' !in key && EqualIgnoringCase(key, KeyOf(t))
    requires ParseLine(Ok(st), lead + key + gap + "=" + x) == Ok(st')
    ensures Sets1(st, st', t)
  {
    KeyShapeOf(key, t);
    var line := Trim(lead + key + gap + "=" + x);
    KeyRead(lead, key, gap, x);
    hide Trim, SplitPair, EqualIgnoringCase, LineOk, Blank, Tight, SetKeyValue, KeyOf, SectionOf;
    var pair := SplitPair(line).value;
    KeyedSetting(st.config, st.section, pair.0, pair.1, t, st'.config);
  }

  /** A setting whose key has the length of a target's key sets that target. */
  lemma KeyedSetting(c: Config, section: Section, key: string, value: string, t: Target, c': Config)
    requires |key| == |KeyOf(t)| && SetKeyValue(c, section, key, value) == Ok(c')
    ensures Belongs(t, section) && !Has(c, t) && Has(c', t) && c' == Put(c, t, c')
  {
    assert |TARGET_PCI| == 9 && |CONTROLLER_PCI| == 19 && |BBS_DESCRIPTION| == 20;
    KeyIsNoSetting(c.settings, section, key, value);
    hide SetSetting, DecodeDisk, ParseAddress;
  }

  lemma ReplacedSourceSets(a: State, line: string, t: Target, a': State)
    requires IsLine(line) && AssignsKey(LineText(line), KeyOf(t))
    requires ParseLine(Ok(a), Strip(Body(line))) == Ok(a')
    ensures Sets1(a, a', t)
  {
    hide *;
    var lead, key, gap, x := AssignmentSplit(line, t);
    KeyedLineSets(a, lead, key, gap, x, t, a');
  }

  lemma TargetLineSets(b: State, v: Values, t: Target, b': State)
    requires ParseLine(Ok(b), TargetLine(v, t)) == Ok(b')
    ensures Sets1(b, b', t)
  {
    TargetKeyShape(t);
    SameLength(KeyOf(t), KeyOf(t));
    assert '=' !in KeyOf(t);
    WithoutBlanks(KeyOf(t), ValueOf(v, t));
    hide ParseLine, EqualIgnoringCase, KeyOf, ValueOf, Sets1;
    KeyedLineSets(b, "", KeyOf(t), "", ValueOf(v, t), t, b');
  }

  /** A new target line is accepted where the target belongs and is free. */
  lemma TargetLineTaken(b: State, n: Choice, t: Target)
    requires n.Valid() && Belongs(t, b.section) && !Has(b.config, t)
    ensures ParseLine(Ok(b), TargetLine(n.Texts(), t)) == Ok(b.(config := Put(b.config, t, Retargeted(b.config, n))))
  {
    TargetKeyShape(t);
    TargetValueShape(n, t);
    PairLine(b, KeyOf(t), ValueOf(n.Texts(), t));
    AddressRoundTrip(n.gpu, false);
    AddressRoundTrip(n.controller, false);
    DiskRoundTrip(n.disk);
    hide ParseLine, FormatAddress, ParseAddress, Encode, DecodeDisk, SetSetting, Representable, KeyShape, Printable;
    hide Tight;
  }

  // -------------------------------------------------------------- a set disk stays

  lemma LineKeepsDisk(st: State, t: string)
    requires st.config.disk.Some?
    ensures var r := ProcessTrimmed(st, t); r.Ok? ==> r.value.config.disk.Some?
  {
    hide SplitPair, SetSetting, SectionOf, DecodeDisk, ParseAddress;
  }

  lemma {:induction false} FeedKeepsDisk(scan: Result<Scan>, text: string)
    requires scan.Ok? ==> scan.value.state.config.disk.Some?
    ensures var r := Feed(scan, text); r.Ok? ==> r.value.state.config.disk.Some?
  {
    if text != "" {
      var init := text[..|text| - 1];
      FeedKeepsDisk(scan, init);
      var before := Feed(scan, init);
      if before.Ok? {
        LineKeepsDisk(before.value.state, Trim(before.value.line));
      }
      hide ProcessTrimmed, Trim;
    }
  }

  lemma DiskStays(p: string, rest: string)
    requires AtBoundary(p) || rest == ""
    requires Meaning(p).Ok? && Meaning(p + rest).Ok? && Meaning(p).value.config.disk.Some?
    ensures Meaning(p + rest).value.config.disk.Some?
  {
    if rest == "" {
      assert p + rest == p;
    } else {
      BoundaryScan(p);
      FeedConcat(START, p, rest);
      FeedKeepsDisk(Feed(START, p), rest);
      var scan := Feed(START, p + rest);
      LineKeepsDisk(scan.value.state, Trim(scan.value.line));
      hide ProcessTrimmed, Trim, Feed;
    }
  }

  // ------------------------------------------------------------------ the condition

  predicate InsideBoot(p: string) {
    Meaning(p).Ok? && Meaning(p).value.section == Boot
  }

  /** Wherever the pieces insert the description, the parser of the input, having
      read p and the sources before it, is inside [Boot]. */
  predicate SafeFrom(p: string, ps: seq<Piece>)
    decreases |ps|
  {
    ps == [] || ((ps[0].Inserted? ==> InsideBoot(p)) && SafeFrom(p + SourceOf(ps[0]), ps[1..]))
  }

  predicate Inserts(ps: seq<Piece>) {
    exists i :: 0 <= i < |ps| && ps[i].Inserted?
  }

  /** The input has an edit, and an insertion stands inside [Boot] of an input
      without a description. */
  ghost predicate Editable(input: string, n: Choice)
    requires n.Valid()
  {
    match Edit(input, n.Texts())
    case None => false
    case Some(ps) => && SafeFrom("", ps)
                     && (Inserts(ps) ==> Parse(input).Ok? && Parse(input).value.disk.None?)
  }

  // ------------------------------------------------------------ from the condition

  /** Both parses, with the targets written so far; `ins` says that the description
      was inserted. */
  ghost predicate Rel(a: State, b: State, seen: set<Target>, ins: bool, n: Choice) {
    && Same(a, b)
    && (forall t :: t !in seen ==> Agree(b.config, a.config, t))
    && (forall t :: t in seen ==> Agree(b.config, Retargeted(b.config, n), t))
    && (forall t :: t in seen && !(t == Disk && ins) ==> Has(a.config, t))
    && (ins ==> Disk in seen && !Has(a.config, Disk))
  }

  lemma RelKept(a: State, b: State, seen: set<Target>, ins: bool, n: Choice, line: string, a': State)
    returns (b': State)
    requires Rel(a, b, seen, ins, n) && ParseLine(Ok(a), line) == Ok(a') && (ins ==> !Has(a'.config, Disk))
    ensures ParseLine(Ok(b), line) == Ok(b') && Rel(a', b', seen, ins, n)
  {
    hide ParseLine;
    var t := LineEffect(a, b, line, a');
    match t
    case None =>
      b' := a'.(config := b.config.(settings := a'.config.settings));
      assert forall u :: Agree(a.config, a'.config, u);
      assert Agree(a.config, a'.config, Gpu) && Agree(a.config, a'.config, Controller) &&
             Agree(a.config, a'.config, Disk);
    case Some(u) =>
      assert u !in seen;
      assert Agree(b.config, a.config, u);
      b' := b.(config := Put(b.config, u, a'.config));
  }

  lemma RelReplaced(a: State, b: State, seen: set<Target>, ins: bool, n: Choice, t: Target, a': State)
    returns (b': State)
    requires n.Valid() && Rel(a, b, seen, ins, n) && t !in seen && Sets1(a, a', t)
    ensures ParseLine(Ok(b), TargetLine(n.Texts(), t)) == Ok(b') && Rel(a', b', seen + {t}, ins, n)
  {
    hide ParseLine, Representable;
    assert Agree(b.config, a.config, t);
    TargetLineTaken(b, n, t);
    b' := b.(config := Put(b.config, t, Retargeted(b.config, n)));
    forall u: Target | u !in seen + {t} ensures Agree(b'.config, a'.config, u) {
      PutOther(a.config, a'.config, b.config, t, u, n);
    }
    forall u: Target | u in seen + {t} ensures Agree(b'.config, Retargeted(b'.config, n), u) {
      assert u in seen ==> Agree(b.config, Retargeted(b.config, n), u);
    }
    forall u: Target | u in seen + {t} && !(u == Disk && ins) ensures Has(a'.config, u) {
      assert u in seen ==> Has(a.config, u);
    }
  }

  lemma PutOther(c: Config, c': Config, d: Config, t: Target, u: Target, n: Choice)
    requires u != t && Agree(d, c, u) && c' == Put(c, t, c')
    ensures Agree(Put(d, t, Retargeted(d, n)), c', u)
  {
  }

  lemma RelInserted(a: State, b: State, seen: set<Target>, n: Choice) returns (b': State)
    requires n.Valid() && Rel(a, b, seen, false, n) && Disk !in seen && a.section == Boot && !Has(a.config, Disk)
    ensures ParseLine(Ok(b), TargetLine(n.Texts(), Disk)) == Ok(b') && Rel(a, b', seen + {Disk}, true, n)
  {
    hide ParseLine, Representable;
    assert Agree(b.config, a.config, Disk);
    TargetLineTaken(b, n, Disk);
    b' := b.(config := Put(b.config, Disk, Retargeted(b.config, n)));
  }

  /** One piece, from the condition. */
  lemma ForwardPiece(p: string, output: string, piece: Piece, seen: set<Target>, n: Choice, a: State, b: State,
                     ins: bool, a': State) returns (b': State, ins': bool)
    requires n.Valid() && Meaning(p) == Ok(a) && Meaning(output) == Ok(b) && Rel(a, b, seen, ins, n)
    requires Faithful(piece, n.Texts()) && PlainLines(n.Texts()) && (forall t :: Sets(piece, t) ==> t !in seen)
    requires if piece.Inserted? then piece.result == Insertion(output, n.Texts())
             else AtBoundary(p) && AtBoundary(output)
    requires Meaning(p + SourceOf(piece)) == Ok(a')
    requires piece.Inserted? ==> a.section == Boot && !Has(a.config, Disk)
    requires ins ==> !Has(a'.config, Disk)
    ensures Meaning(output + ResultOf(piece)) == Ok(b') && ins' == (ins || piece.Inserted?)
    ensures Rel(a', b', seen + (set t | Sets(piece, t)), ins', n)
  {
    hide Meaning, ParseLine, Strip, Body, Rel, IsLine, Insertion, LineText, AssignsKey, TargetLine, Representable;
    hide Unbroken;
    var v := n.Texts();
    ins' := ins || piece.Inserted?;
    match piece
    case Kept(line) =>
      AppendRaw(p, line);
      AppendRaw(output, line);
      b' := RelKept(a, b, seen, ins, n, Strip(Body(line)), a');
      assert seen + (set t | Sets(piece, t)) == seen;
    case Replaced(line, t, result) =>
      AppendRaw(p, line);
      ReplacedSourceSets(a, line, t, a');
      assert Sets(piece, t);
      CrLfText();
      AppendedText(output, TargetLine(v, t), CRLF, result);
      b' := RelReplaced(a, b, seen, ins, n, t, a');
      assert (set u | Sets(piece, u)) == {t};
    case Inserted(result) =>
      assert p + "" == p && Sets(piece, Disk);
      InsertedText(output, v);
      NotInserted(a, b, seen, ins, n);
      b' := RelInserted(a, b, seen, n);
      assert (set u | Sets(piece, u)) == {Disk};
  }

  lemma NotInserted(a: State, b: State, seen: set<Target>, ins: bool, n: Choice)
    requires Rel(a, b, seen, ins, n) && Disk !in seen
    ensures !ins
  {
  }

  lemma NextSeen(c: Cursor, output: string, v: Values)
    requires NextTurn(c, output, v).Emit?
    ensures var t := NextTurn(c, output, v);
      && t.next.seen == c.seen + (set u | Sets(t.piece, u))
      && forall u :: Sets(t.piece, u) ==> u !in c.seen
  {
    hide NextTurn, Sets;
    var t := NextTurn(c, output, v);
    forall u: Target
      ensures (Sets(t.piece, u) ==> u !in c.seen) && (u in t.next.seen <==> u in c.seen || Sets(t.piece, u))
    {
      TurnSetsNew(c, output, v, u);
    }
  }

  /** If the input has no description at its end, it has none before. */
  lemma NoDiskBefore(p: string, rest: string, input: string)
    requires (AtBoundary(p) || rest == "") && p + rest == input && Meaning(p).Ok? && Meaning(input).Ok?
    requires !Has(Meaning(input).value.config, Disk)
    ensures !Has(Meaning(p).value.config, Disk)
  {
    hide Meaning, AtBoundary;
    if Meaning(p).value.config.disk.Some? {
      DiskStays(p, rest);
    }
  }

  lemma {:induction false} Forward(p: string, c: Cursor, output: string, n: Choice, a: State, b: State, ins: bool,
                                   input: string)
    requires n.Valid() && PlainLines(n.Texts()) && Paired(p, c, output, a, b) && Rel(a, b, c.seen, ins, n)
    requires EditFrom(c, output, n.Texts()).Some? && p + c.rest == input && Meaning(input).Ok?
    requires var ps := EditFrom(c, output, n.Texts()).value;
      SafeFrom(p, ps) && (ins || Inserts(ps) ==> !Has(Meaning(input).value.config, Disk))
    ensures var r := Meaning(output + Results(EditFrom(c, output, n.Texts()).value));
      r.Ok? && Selects(r.value.config, n)
    decreases |c.rest|, if c.Owes() then 1 else 0
  {
    var v := n.Texts();
    var ps := EditFrom(c, output, v).value;
    var t := NextTurn(c, output, v);
    hide NextTurn, Meaning, PlainLines, EditFrom, ResultOf, SourceOf, Results, Same, Rel, Representable, Insertion;
    hide Faithful;
    EditTurn(c, output, v);
    EditUnfold(c, output, v);
    if t.Emit? {
      var p', output' := p + SourceOf(t.piece), output + ResultOf(t.piece);
      var rest := EditFrom(t.next, output', v).value;
      SafeCons(p, t.piece, rest);
      var a' := TurnInput(p, c, output, v, input);
      NextSeen(c, output, v);
      if ins || Inserts(ps) {
        NoDiskBefore(p, c.rest, input);
        NoDiskBefore(p', t.next.rest, input);
      }
      var b', ins' := ForwardPiece(p, output, t.piece, c.seen, n, a, b, ins, a');
      RelSame(a', b', t.next.seen, ins', n);
      Forward(p', t.next, output', n, a', b', ins', input);
    } else {
      AllWritten(a, b, c.seen, ins, n);
    }
  }

  lemma SafeCons(p: string, piece: Piece, rest: seq<Piece>)
    requires SafeFrom(p, [piece] + rest)
    ensures (piece.Inserted? ==> InsideBoot(p)) && SafeFrom(p + SourceOf(piece), rest)
    ensures Inserts([piece] + rest) <==> piece.Inserted? || Inserts(rest)
  {
    hide InsideBoot, SourceOf;
    var ps := [piece] + rest;
    assert ps[0] == piece && ps[1..] == rest;
    assert forall i :: 0 <= i < |rest| ==> ps[i + 1] == rest[i];
    if Inserts(ps) && !piece.Inserted? {
      var i :| 0 <= i < |ps| && ps[i].Inserted?;
      assert rest[i - 1].Inserted?;
    }
    if Inserts(rest) {
      var i :| 0 <= i < |rest| && rest[i].Inserted?;
      assert ps[i + 1].Inserted?;
    }
  }

  lemma RelSame(a: State, b: State, seen: set<Target>, ins: bool, n: Choice)
    requires Rel(a, b, seen, ins, n)
    ensures Same(a, b)
  {
  }

  lemma AllWritten(a: State, b: State, seen: set<Target>, ins: bool, n: Choice)
    requires Rel(a, b, seen, ins, n) && seen == {Gpu, Controller, Disk}
    ensures Selects(b.config, n)
  {
    assert Gpu in seen && Controller in seen && Disk in seen;
    assert Agree(b.config, Retargeted(b.config, n), Gpu);
    assert Agree(b.config, Retargeted(b.config, n), Controller);
    assert Agree(b.config, Retargeted(b.config, n), Disk);
  }

  // ------------------------------------------------------------- to the condition

  /** The descriptions of both parses. */
  ghost predicate DiskRel(a: State, b: State, seen: set<Target>, ins: bool) {
    && (Disk !in seen && Has(a.config, Disk) ==> Has(b.config, Disk))
    && (ins ==> Disk in seen && !Has(a.config, Disk) && Has(b.config, Disk))
  }

  lemma DiskKept(a: State, b: State, seen: set<Target>, ins: bool, line: string, a': State, b': State)
    requires Same(a, b) && DiskRel(a, b, seen, ins)
    requires ParseLine(Ok(a), line) == Ok(a') && ParseLine(Ok(b), line) == Ok(b')
    ensures DiskRel(a', b', seen, ins)
  {
    hide ParseLine;
    var t := LineEffect(a, b, line, a');
    if t.None? {
      assert Agree(a.config, a'.config, Disk);
    }
  }

  /** One accepted piece: an insertion stands inside [Boot], and the relation of the
      descriptions is kept. */
  lemma DiskPiece(p: string, output: string, piece: Piece, v: Values, seen: set<Target>, ins: bool,
                  a: State, b: State, a': State, b': State)
    requires Meaning(p) == Ok(a) && Meaning(output) == Ok(b) && Same(a, b) && DiskRel(a, b, seen, ins)
    requires Faithful(piece, v) && PlainLines(v) && (forall t :: Sets(piece, t) ==> t !in seen)
    requires if piece.Inserted? then piece.result == Insertion(output, v) else AtBoundary(p) && AtBoundary(output)
    requires Meaning(p + SourceOf(piece)) == Ok(a') && Meaning(output + ResultOf(piece)) == Ok(b')
    ensures piece.Inserted? ==> InsideBoot(p)
    ensures DiskRel(a', b', seen + (set t | Sets(piece, t)), ins || piece.Inserted?)
  {
    hide Meaning, ParseLine, Strip, Body, IsLine, Insertion, LineText, AssignsKey, TargetLine, Unbroken;
    match piece
    case Kept(line) =>
      AppendRaw(p, line);
      AppendRaw(output, line);
      DiskKept(a, b, seen, ins, Strip(Body(line)), a', b');
      assert seen + (set t | Sets(piece, t)) == seen;
    case Replaced(line, t, result) =>
      AppendRaw(p, line);
      ReplacedSourceSets(a, line, t, a');
      CrLfText();
      AppendedText(output, TargetLine(v, t), CRLF, result);
      TargetLineSets(b, v, t, b');
      assert Sets(piece, t) && (set u | Sets(piece, u)) == {t};
    case Inserted(result) =>
      assert p + "" == p && Sets(piece, Disk);
      InsertedText(output, v);
      TargetLineSets(b, v, Disk, b');
      assert (set u | Sets(piece, u)) == {Disk};
  }

  lemma {:induction false} Backward(p: string, c: Cursor, output: string, v: Values, a: State, b: State, ins: bool,
                                    input: string)
    requires PlainLines(v) && Paired(p, c, output, a, b) && DiskRel(a, b, c.seen, ins)
    requires EditFrom(c, output, v).Some? && p + c.rest == input && Meaning(input).Ok?
    requires Meaning(output + Results(EditFrom(c, output, v).value)).Ok?
    ensures var ps := EditFrom(c, output, v).value;
      SafeFrom(p, ps) && (ins || Inserts(ps) ==> !Has(Meaning(input).value.config, Disk))
    decreases |c.rest|, if c.Owes() then 1 else 0
  {
    var ps := EditFrom(c, output, v).value;
    var t := NextTurn(c, output, v);
    hide NextTurn, Meaning, PlainLines, EditFrom, ResultOf, SourceOf, Results, Same, Insertion, Faithful, DiskRel, Sets;
    EditTurn(c, output, v);
    EditUnfold(c, output, v);
    if t.Emit? {
      var p', output' := p + SourceOf(t.piece), output + ResultOf(t.piece);
      var rest := EditFrom(t.next, output', v).value;
      TurnBoundary(c, output, v);
      OutputAccepted(t.next, output', v);
      var _ := TurnInput(p, c, output, v, input);
      var a', b' := PairedStep(p, c, output, v, a, b, input);
      NextSeen(c, output, v);
      DiskPiece(p, output, t.piece, v, c.seen, ins, a, b, a', b');
      Backward(p', t.next, output', v, a', b', ins || t.piece.Inserted?, input);
      SafeConsBack(p, t.piece, rest);
    } else {
      assert p + "" == p;
      DiskRelEnd(a, b, c.seen, ins);
    }
  }

  lemma SafeConsBack(p: string, piece: Piece, rest: seq<Piece>)
    requires (piece.Inserted? ==> InsideBoot(p)) && SafeFrom(p + SourceOf(piece), rest)
    ensures SafeFrom(p, [piece] + rest)
    ensures Inserts([piece] + rest) ==> piece.Inserted? || Inserts(rest)
  {
    hide InsideBoot, SourceOf;
    var ps := [piece] + rest;
    assert ps[0] == piece && ps[1..] == rest;
    if Inserts(ps) && !piece.Inserted? {
      var i :| 0 <= i < |ps| && ps[i].Inserted?;
      assert rest[i - 1].Inserted?;
    }
  }

  lemma DiskRelEnd(a: State, b: State, seen: set<Target>, ins: bool)
    requires DiskRel(a, b, seen, ins)
    ensures ins ==> !Has(a.config, Disk)
  {
  }

  // ------------------------------------------------------------------- the theorem

  lemma StartRel(n: Choice)
    requires n.Valid()
    ensures var c := Cursor("", Elsewhere, {});
      && Rel(INITIAL, INITIAL, {}, false, n) && DiskRel(INITIAL, INITIAL, {}, false)
      && Meaning("") == Ok(INITIAL)
  {
    StartRelated(n);
    hide Representable;
  }

  /** Editing commutes with parsing exactly on the editable texts: for every text
      that parses, and every well-formed choice of distinct addresses. */
  lemma EditCommutesIffEditable(input: string, n: Choice)
    requires n.Valid() && n.gpu != n.controller && Parse(input).Ok?
    ensures Editable(input, n) <==>
            EditOf(input, n).Some? && Parse(EditOf(input, n).value) == Ok(Retargeted(Parse(input).value, n))
  {
    hide Representable, EditFrom, Results, MarkerIsValid, SafeFrom, Inserts;
    PlainTexts(n);
    StartRel(n);
    if EditOf(input, n).Some? {
      var c, v, output := Cursor(input, Elsewhere, {}), n.Texts(), EditOf(input, n).value;
      assert "" + input == input && "" + output == output;
      if Editable(input, n) {
        Forward("", c, "", n, INITIAL, INITIAL, false, input);
        EditKeeps("", c, "", v, INITIAL, INITIAL, input);
      } else if Parse(output).Ok? {
        Backward("", c, "", v, INITIAL, INITIAL, false, input);
      }
    }
  }

  /** A boot configuration whose carriage returns stand at line ends is editable. */
  lemma TidyIsEditable(input: string, n: Choice)
    requires TidyReturns(input) && Parse(input).Ok? && BootReady(Parse(input).value)
    requires n.Valid() && n.gpu != n.controller
    ensures Editable(input, n)
  {
    EditCommutesWithParsing(input, n);
    hide Parse, Edit, Results, Representable, Editable, TidyReturns;
    EditCommutesIffEditable(input, n);
  }

  // ------------------------------------------ the condition is about the input alone

  ghost predicate SameShape(ps: seq<Piece>, qs: seq<Piece>) {
    |ps| == |qs| &&
    forall i :: 0 <= i < |ps| ==> SourceOf(ps[i]) == SourceOf(qs[i]) && ps[i].Inserted? == qs[i].Inserted?
  }

  lemma TurnsAlike(c: Cursor, o1: string, v1: Values, o2: string, v2: Values)
    ensures var t1, t2 := NextTurn(c, o1, v1), NextTurn(c, o2, v2);
      && t1.Finished? == t2.Finished? && t1.Emit? == t2.Emit?
      && (t1.Emit? ==> && t1.next == t2.next && SourceOf(t1.piece) == SourceOf(t2.piece)
                       && t1.piece.Inserted? == t2.piece.Inserted?)
  {
    hide KindOf, LineText, LineLength, Insertion, TargetLine;
  }

  lemma {:induction false} EditsAlike(c: Cursor, o1: string, v1: Values, o2: string, v2: Values)
    ensures EditFrom(c, o1, v1).Some? <==> EditFrom(c, o2, v2).Some?
    ensures EditFrom(c, o1, v1).Some? ==> SameShape(EditFrom(c, o1, v1).value, EditFrom(c, o2, v2).value)
    decreases |c.rest|, if c.Owes() then 1 else 0
  {
    var t1, t2 := NextTurn(c, o1, v1), NextTurn(c, o2, v2);
    TurnsAlike(c, o1, v1, o2, v2);
    hide NextTurn, SourceOf;
    if t1.Emit? {
      EditsAlike(t1.next, o1 + ResultOf(t1.piece), v1, o2 + ResultOf(t2.piece), v2);
    }
  }

  lemma {:induction false} SafeAlike(p: string, ps: seq<Piece>, qs: seq<Piece>)
    requires SameShape(ps, qs)
    ensures SafeFrom(p, ps) <==> SafeFrom(p, qs)
    decreases |ps|
  {
    hide InsideBoot, SourceOf;
    if ps != [] {
      assert SameShape(ps[1..], qs[1..]);
      SafeAlike(p + SourceOf(ps[0]), ps[1..], qs[1..]);
    }
  }

  /** Whether a text is editable does not depend on the choice. */
  lemma EditableForAnyChoice(input: string, n: Choice, m: Choice)
    requires n.Valid() && m.Valid()
    ensures Editable(input, n) <==> Editable(input, m)
  {
    var c := Cursor(input, Elsewhere, {});
    hide EditFrom, SafeFrom, Representable, Parse;
    EditsAlike(c, "", n.Texts(), "", m.Texts());
    if Edit(input, n.Texts()).Some? {
      var ps, qs := Edit(input, n.Texts()).value, Edit(input, m.Texts()).value;
      SafeAlike("", ps, qs);
      assert Inserts(ps) <==> Inserts(qs);
    }
  }
}
