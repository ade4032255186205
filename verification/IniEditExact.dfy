/** Editing and parsing for every text, carriage returns anywhere.  The parser
    does not see carriage returns, so it reads a raw line as its stripped form;
    what the editor keeps or replaces has the same effect on every setting that
    is not a target. */
module IniEditExact {
  import opened Basics
  import opened IniText
  import opened IniParser
  import opened IniLines
  import opened IniEdit
  import opened IniEditCommutes

  // -------------------------------------------------------------------- stripping

  /** The text without its carriage returns. */
  function Strip(s: string): (r: string)
    ensures '\r' !in r && (forall c :: c in r ==> c in s)
  {
    if s == "" then ""
    else Strip(s[..|s| - 1]) + (if s[|s| - 1] == '\r' then "" else [s[|s| - 1]])
  }

  lemma {:induction false} StripConcat(a: string, b: string)
    ensures Strip(a + b) == Strip(a) + Strip(b)
  {
    if b == "" {
      assert a + b == a;
    } else {
      assert (a + b)[..|a + b| - 1] == a + b[..|b| - 1];
      StripConcat(a, b[..|b| - 1]);
    }
  }

  lemma {:induction false} StripPlain(s: string)
    requires '\r' !in s
    ensures Strip(s) == s
  {
    if s != "" {
      assert s[|s| - 1] in s;
      StripPlain(s[..|s| - 1]);
      assert s == s[..|s| - 1] + [s[|s| - 1]];
    }
  }

  lemma {:induction false} FeedStrip(scan: Result<Scan>, s: string)
    ensures Feed(scan, s) == Feed(scan, Strip(s))
  {
    hide ProcessTrimmed, Trim;
    if s != "" {
      var init, last := s[..|s| - 1], s[|s| - 1];
      FeedStrip(scan, init);
      if last != '\r' {
        assert Strip(s)[..|Strip(s)| - 1] == Strip(init);
      } else {
        assert Strip(s) == Strip(init);
      }
    }
  }

  /** A raw line without its line feed. */
  function Body(line: string): string {
    if line != "" && line[|line| - 1] == '\n' then line[..|line| - 1] else line
  }

  function LineEnd(line: string): string {
    if line != "" && line[|line| - 1] == '\n' then "\n" else ""
  }

  lemma BodyOfLine(line: string)
    requires IsLine(line)
    ensures line == Body(line) + LineEnd(line) && '\n' !in Body(line)
    ensures Strip(line) == Strip(Body(line)) + LineEnd(line) && Unbroken(Strip(Body(line)))
  {
    assert line == line[..|line| - 1] + [line[|line| - 1]];
    StripConcat(Body(line), LineEnd(line));
    StripPlain(LineEnd(line));
    hide Strip;
  }

  lemma StripTail(text: string, s: string)
    ensures Meaning(text + s) == Meaning(text + Strip(s))
  {
    hide Step, Strip, Feed;
    FeedConcat(START, text, s);
    FeedConcat(START, text, Strip(s));
    FeedStrip(Feed(START, text), s);
  }

  lemma AppendPlain(text: string, plain: string, end: string)
    requires AtBoundary(text) && Unbroken(plain) && (end == "" || end == "\n")
    ensures Meaning(text + (plain + end)) == ParseLine(Meaning(text), plain)
  {
    var e := Ending(0, end == "\n");
    assert Terminator(e) == end;
    hide ParseLine, Meaning, Unbroken, AtBoundary, Terminator;
    AppendLine(text, plain, e);
    assert text + plain + end == text + (plain + end);
  }

  /** Appending a raw line parses its stripped body. */
  lemma AppendRaw(text: string, line: string)
    requires AtBoundary(text) && IsLine(line)
    ensures Meaning(text + line) == ParseLine(Meaning(text), Strip(Body(line)))
  {
    BodyOfLine(line);
    StripTail(text, line);
    AppendPlain(text, Strip(Body(line)), LineEnd(line));
    hide *;
  }

  // ------------------------------------------------- lines with a target's key

  predicate Blank(s: string) {
    forall i :: 0 <= i < |s| ==> IsSpace(s[i])
  }

  lemma {:induction false} TrimLeftSplit(s: string) returns (lead: string)
    ensures Blank(lead) && s == lead + TrimLeft(s)
  {
    if s != "" && IsSpace(s[0]) {
      var rest := TrimLeftSplit(s[1..]);
      lead := [s[0]] + rest;
      assert s == [s[0]] + s[1..];
    } else {
      lead := "";
    }
  }

  lemma {:induction false} TrimRightSplit(s: string) returns (tail: string)
    ensures Blank(tail) && s == TrimRight(s) + tail
  {
    if s != "" && IsSpace(s[|s| - 1]) {
      var init := s[..|s| - 1];
      assert TrimRight(s) == TrimRight(init);
      hide TrimRight;
      var rest := TrimRightSplit(init);
      tail := rest + [s[|s| - 1]];
      assert s == init + [s[|s| - 1]];
      assert TrimRight(init) + rest + [s[|s| - 1]] == TrimRight(init) + tail;
    } else {
      tail := "";
    }
  }

  lemma {:induction false} TrimRightCrSplit(s: string) returns (tail: string)
    ensures s == TrimRightCr(s) + tail
  {
    if s != "" && (IsSpace(s[|s| - 1]) || s[|s| - 1] == '\r') {
      var init := s[..|s| - 1];
      assert TrimRightCr(s) == TrimRightCr(init);
      hide TrimRightCr;
      var rest := TrimRightCrSplit(init);
      tail := rest + [s[|s| - 1]];
      assert s == init + [s[|s| - 1]];
      assert TrimRightCr(init) + rest + [s[|s| - 1]] == TrimRightCr(init) + tail;
    } else {
      tail := "";
    }
  }

  lemma {:induction false} TrimLeftBlank(lead: string, s: string)
    requires Blank(lead) && s != "" && !IsSpace(s[0])
    ensures TrimLeft(lead + s) == s
  {
    if lead == "" {
      assert lead + s == s;
    } else {
      assert (lead + s)[1..] == lead[1..] + s;
      TrimLeftBlank(lead[1..], s);
    }
  }

  lemma {:induction false} TrimRightAfter(s: string, x: string) returns (y: string)
    requires s != "" && !IsSpace(s[|s| - 1])
    ensures TrimRight(s + x) == s + y
  {
    if x == "" {
      y := "";
      assert s + x == s;
    } else if IsSpace(x[|x| - 1]) {
      assert (s + x)[..|s + x| - 1] == s + x[..|x| - 1];
      y := TrimRightAfter(s, x[..|x| - 1]);
    } else {
      y := x;
    }
  }

  /** A key, its blanks and an equals sign somewhere in a line: the parser reads
      exactly that key. */
  lemma KeyRead(lead: string, key: string, gap: string, x: string)
    requires Blank(lead) && Blank(gap) && Tight(key) && '=' !in key
    ensures var t := Trim(lead + key + gap + "=" + x);
      && t != "" && t[0] == key[0]
      && (SplitPair(t).Some? ==> SplitPair(t).value.0 == key)
  {
    var front := key + gap;
    var core := front + "=";
    assert lead + key + gap + "=" + x == lead + (core + x);
    TrimLeftBlank(lead, core + x);
    var y := TrimRightAfter(core, x);
    var t := Trim(lead + key + gap + "=" + x);
    assert t == front + "=" + y;
    assert '=' !in front;
    FirstEqualsAt(front, y);
    assert t[..|front|] == front;
    TrimFront(key, gap);
  }

  lemma {:induction false} TrimFront(key: string, gap: string)
    requires Tight(key) && Blank(gap)
    ensures Trim(key + gap) == key
  {
    TrimLeftBlank("", key + gap);
    assert "" + (key + gap) == key + gap;
    TrimRightBlank(key, gap);
  }

  lemma {:induction false} TrimRightBlank(key: string, gap: string)
    requires Tight(key) && Blank(gap)
    ensures TrimRight(key + gap) == key
  {
    if gap == "" {
      assert key + gap == key;
    } else {
      assert (key + gap)[..|key + gap| - 1] == key + gap[..|gap| - 1];
      TrimRightBlank(key, gap[..|gap| - 1]);
    }
  }

  lemma KeyShapeOf(key: string, t: Target)
    requires EqualIgnoringCase(key, KeyOf(t))
    ensures |key| == |KeyOf(t)| && |key| in {9, 19, 20}
    ensures Tight(key) && '\r' !in key && key[0] !in {'#', ';', '['}
  {
    var k := KeyOf(t);
    assert |k| in {9, 19, 20} && k[0] == 'T';
    KeyLetters(t);
    forall i | 0 <= i < |key| ensures 'a' <= Lower(key[i]) <= 'z' {
      assert Lower(key[i]) == Lower(k[i]);
    }
    LettersArePlain();
  }

  lemma KeyLetters(t: Target)
    ensures forall i :: 0 <= i < |KeyOf(t)| ==> 'a' <= Lower(KeyOf(t)[i]) <= 'z'
  {
  }

  lemma LettersArePlain()
    ensures forall c :: 'a' <= Lower(c) <= 'z' ==> !IsSpace(c) && c != '\r' && c != '#' && c != ';' && c != '['
  {
  }

  lemma KeySplit(text: string, t: Target) returns (key: string, gap: string, value: string)
    requires AssignsKey(text, KeyOf(t))
    ensures text == key + gap + "=" + value
    ensures Blank(gap) && EqualIgnoringCase(key, KeyOf(t)) && '=' !in key
  {
    var e := FirstEquals(text);
    var front := text[..e];
    key, value := TrimRight(front), text[e + 1..];
    hide FirstEquals, TrimRight, EqualIgnoringCase;
    gap := TrimRightSplit(front);
    assert '=' !in key by {
      assert forall i :: 0 <= i < |key| ==> key[i] == front[i];
    }
    assert text == front + "=" + value;
  }

  lemma BodySplit(line: string) returns (lead: string, tail: string)
    ensures Body(line) == lead + LineText(line) + tail && Blank(lead)
  {
    var body := Body(line);
    hide TrimLeft, TrimRightCr;
    lead := TrimLeftSplit(body);
    tail := TrimRightCrSplit(TrimLeft(body));
  }

  /** How the parser sees a line that the editor takes for an assignment. */
  lemma AssignmentSplit(line: string, t: Target) returns (lead: string, key: string, gap: string, x: string)
    requires IsLine(line) && AssignsKey(LineText(line), KeyOf(t))
    ensures Strip(Body(line)) == lead + key + gap + "=" + x
    ensures Blank(lead) && Blank(gap) && EqualIgnoringCase(key, KeyOf(t)) && '=' !in key
  {
    hide LineText, Strip, EqualIgnoringCase, Tight, Body, AssignsKey, IsLine, KeyOf;
    var tail: string, value: string;
    lead, tail := BodySplit(line);
    key, gap, value := KeySplit(LineText(line), t);
    KeyShapeOf(key, t);
    BlankPlain(lead);
    BlankPlain(gap);
    Regroup(lead, key, gap, value, tail);
    x := Strip(value + tail);
    StripPlain(lead + key + gap + "=");
    StripConcat(lead + key + gap + "=", value + tail);
  }

  lemma Regroup(lead: string, key: string, gap: string, value: string, tail: string)
    ensures lead + (key + gap + "=" + value) + tail == lead + key + gap + "=" + (value + tail)
  {
  }

  lemma BlankPlain(s: string)
    requires Blank(s)
    ensures '\r' !in s
  {
  }

  // ---------------------------------------------------------- settings unchanged

  /** Two parser states that agree on all but the targets. */
  predicate Same(a: State, b: State) {
    a.section == b.section && a.seen == b.seen && a.config.settings == b.config.settings
  }

  /** No setting has a key as long as a target's. */
  lemma KeyIsNoSetting(s: Settings, section: Section, key: string, value: string)
    requires |key| in {9, 19, 20}
    ensures SetSetting(s, section, key, value).Err?
  {
    if section == MarkerSection {
      KeyIsNoMarker(key);
    }
    hide ParseHex16, CopyText, SetMarker, PolicyOf, BooleanOf, Number;
  }

  lemma KeyIsNoMarker(key: string)
    requires |key| in {9, 19, 20}
    ensures MarkerKey(key).None? && forall m, value :: SetMarker(m, key, value).None?
  {
  }

  /** A line the parser accepts with a target's key changes nothing but a target. */
  lemma TargetKeepsSettings(st: State, t: string, st': State)
    requires ProcessTrimmed(st, t) == Ok(st') && t != "" && t[0] !in {'#', ';', '['}
    requires SplitPair(t).Some? ==> |SplitPair(t).value.0| in {9, 19, 20}
    ensures Same(st, st')
  {
    hide SplitPair, SetSetting, SectionOf, DecodeDisk, ParseAddress;
    var pair := SplitPair(t).value;
    KeyIsNoSetting(st.config.settings, st.section, pair.0, pair.1);
  }

  /** A line accepted after both states has the same effect on all but the targets. */
  lemma SameLineSameSettings(a: State, b: State, line: string, a': State, b': State)
    requires Same(a, b) && ParseLine(Ok(a), line) == Ok(a') && ParseLine(Ok(b), line) == Ok(b')
    ensures Same(a', b')
  {
    hide SplitPair, SetSetting, SectionOf, DecodeDisk, ParseAddress, Trim, LineOk;
  }

  lemma KeyedLineKeeps(st: State, lead: string, key: string, gap: string, x: string, t: Target, st': State)
    requires Blank(lead) && Blank(gap) && '=' !in key && EqualIgnoringCase(key, KeyOf(t))
    requires ParseLine(Ok(st), lead + key + gap + "=" + x) == Ok(st')
    ensures Same(st, st')
  {
    KeyShapeOf(key, t);
    hide ProcessTrimmed, Trim, SplitPair, EqualIgnoringCase, LineOk, KeyOf, Blank, Tight;
    KeyRead(lead, key, gap, x);
    TargetKeepsSettings(st, Trim(lead + key + gap + "=" + x), st');
  }

  /** A line the editor replaces changes nothing but a target, */
  lemma ReplacedSourceKeeps(a: State, line: string, t: Target, a': State)
    requires IsLine(line) && AssignsKey(LineText(line), KeyOf(t))
    requires ParseLine(Ok(a), Strip(Body(line))) == Ok(a')
    ensures Same(a, a')
  {
    hide *;
    var lead, key, gap, x := AssignmentSplit(line, t);
    KeyedLineKeeps(a, lead, key, gap, x, t, a');
  }

  /** and neither does the line it writes. */
  lemma TargetLineKeeps(b: State, v: Values, t: Target, b': State)
    requires ParseLine(Ok(b), TargetLine(v, t)) == Ok(b')
    ensures Same(b, b')
  {
    TargetKeyShape(t);
    SameLength(KeyOf(t), KeyOf(t));
    assert '=' !in KeyOf(t);
    WithoutBlanks(KeyOf(t), ValueOf(v, t));
    hide ParseLine, EqualIgnoringCase, KeyOf, ValueOf, Same;
    KeyedLineKeeps(b, "", KeyOf(t), "", ValueOf(v, t), t, b');
  }

  lemma WithoutBlanks(key: string, value: string)
    ensures "" + key + "" + "=" + value == key + "=" + value
  {
  }

  // --------------------------------------------------------------- whole texts

  /** What a turn appends, and where it leaves the output. */
  lemma TurnShape(c: Cursor, output: string, v: Values)
    requires NextTurn(c, output, v).Emit?
    ensures var t := NextTurn(c, output, v);
      && (t.piece.Inserted? ==> t.piece.result == Insertion(output, v))
      && (!t.piece.Inserted? && t.next.rest != "" ==> AtBoundary(SourceOf(t.piece)))
  {
    if c.rest != "" {
      var n := LineLength(c.rest);
      assert c.rest[..n][n - 1] == c.rest[n - 1];
    }
    hide KindOf, LineText, LineLength, Insertion, TargetLine;
  }

  ghost predicate PlainLines(v: Values) {
    forall t :: Unbroken(TargetLine(v, t))
  }

  /** One turn: the input it consumes and the output it writes have the same
      effect on all but the targets. */
  lemma TurnKeeps(p: string, output: string, piece: Piece, v: Values, a: State, b: State, a': State, b': State)
    requires Meaning(p) == Ok(a) && Meaning(output) == Ok(b) && Same(a, b)
    requires Faithful(piece, v) && PlainLines(v)
    requires if piece.Inserted? then piece.result == Insertion(output, v) else AtBoundary(p) && AtBoundary(output)
    requires Meaning(p + SourceOf(piece)) == Ok(a') && Meaning(output + ResultOf(piece)) == Ok(b')
    ensures Same(a', b')
  {
    match piece
    case Kept(line) =>
      hide Meaning, ParseLine, Strip, Body, Same, IsLine, Insertion, LineText, AssignsKey;
      AppendRaw(p, line);
      AppendRaw(output, line);
      SameLineSameSettings(a, b, Strip(Body(line)), a', b');
    case Replaced(line, t, result) =>
      hide Meaning, ParseLine, Strip, Body, IsLine, Insertion, LineText, AssignsKey, TargetLine;
      AppendRaw(p, line);
      ReplacedSourceKeeps(a, line, t, a');
      CrLfText();
      AppendedText(output, TargetLine(v, t), CRLF, result);
      TargetLineKeeps(b, v, t, b');
    case Inserted(result) =>
      hide Meaning, ParseLine, IsLine, Insertion, LineText, AssignsKey, TargetLine, Faithful;
      assert p + "" == p;
      InsertedText(output, v);
      TargetLineKeeps(b, v, Disk, b');
  }

  /** Both texts so far: read and written up to the same place, and accepted. */
  ghost predicate Paired(p: string, c: Cursor, output: string, a: State, b: State) {
    && (c.rest != "" ==> AtBoundary(p) && AtBoundary(output))
    && Meaning(p) == Ok(a) && Meaning(output) == Ok(b) && Same(a, b)
  }

  /** If the whole output is accepted, so is the output before any turn. */
  lemma OutputAccepted(c: Cursor, output: string, v: Values)
    requires PlainLines(v) && EditFrom(c, output, v).Some? && (c.rest != "" ==> AtBoundary(output))
    requires Meaning(output + Results(EditFrom(c, output, v).value)).Ok?
    ensures Meaning(output).Ok?
  {
    hide Meaning, EditFrom, NextTurn, Insertion, Results, TargetLine, AtBoundary;
    EditTurn(c, output, v);
    if AtBoundary(output) {
      PrefixParses(output, Results(EditFrom(c, output, v).value));
    } else if c.Owes() {
      EndOwes(c, output, v);
      InsertedText(output, v);
      var next, output' := c.(seen := c.seen + {Disk}), output + Insertion(output, v);
      PrefixParses(output', Results(EditFrom(next, output', v).value));
    } else {
      EndSettled(c, output, v);
    }
  }

  lemma ResultBoundary(output: string, piece: Piece, v: Values)
    requires Faithful(piece, v) && (piece.Kept? ==> AtBoundary(piece.source))
    ensures AtBoundary(output + ResultOf(piece))
  {
    hide TargetLine, LineText, AssignsKey;
    var r := ResultOf(piece);
    assert r[|r| - 1] == '\n';
    assert (output + r)[|output + r| - 1] == '\n';
  }

  lemma SourceBoundary(p: string, source: string)
    requires IsLine(source) && AtBoundary(source)
    ensures AtBoundary(p + source)
  {
    assert (p + source)[|p + source| - 1] == '\n';
  }

  /** The input after a turn: accepted, and at the start of a line if more follows. */
  lemma TurnInput(p: string, c: Cursor, output: string, v: Values, input: string) returns (a': State)
    requires NextTurn(c, output, v).Emit? && (c.rest != "" ==> AtBoundary(p) && AtBoundary(output))
    requires p + c.rest == input && Meaning(input).Ok?
    requires c.rest == "" ==> Meaning(p).Ok?
    ensures var t := NextTurn(c, output, v);
      && Faithful(t.piece, v)
      && p + SourceOf(t.piece) + t.next.rest == input && Meaning(p + SourceOf(t.piece)) == Ok(a')
      && (t.next.rest != "" ==> AtBoundary(p + SourceOf(t.piece)) && AtBoundary(output + ResultOf(t.piece)))
      && (if t.piece.Inserted? then t.piece.result == Insertion(output, v) else c.rest != "")
  {
    hide NextTurn, Meaning, Insertion, Faithful, AtBoundary, SourceOf, ResultOf;
    var t := NextTurn(c, output, v);
    TurnIsFaithful(c, output, v);
    TurnShape(c, output, v);
    SourceKind(t.piece, v);
    var source := SourceOf(t.piece);
    Glue(p, source, t.next.rest);
    if t.next.rest != "" {
      StepBoundary(p, output, t.piece, v);
    }
    PrefixParses(p + source, t.next.rest);
    a' := Meaning(p + source).value;
  }

  /** A kept or replaced line is not empty; an insertion consumes nothing. */
  lemma SourceKind(piece: Piece, v: Values)
    requires Faithful(piece, v)
    ensures if piece.Inserted? then SourceOf(piece) == "" else SourceOf(piece) != ""
  {
    hide LineText, AssignsKey, TargetLine;
  }

  /** The turn from one pair of texts to the next. */
  lemma PairedStep(p: string, c: Cursor, output: string, v: Values, a: State, b: State, input: string)
    returns (a': State, b': State)
    requires PlainLines(v) && Paired(p, c, output, a, b) && NextTurn(c, output, v).Emit?
    requires p + c.rest == input && Meaning(input).Ok?
    requires var t := NextTurn(c, output, v); Meaning(output + ResultOf(t.piece)).Ok?
    ensures var t := NextTurn(c, output, v);
      && p + SourceOf(t.piece) + t.next.rest == input
      && Paired(p + SourceOf(t.piece), t.next, output + ResultOf(t.piece), a', b')
  {
    hide NextTurn, Meaning, Insertion, Same, Faithful, SourceOf, ResultOf, PlainLines, AtBoundary;
    var t := NextTurn(c, output, v);
    a' := TurnInput(p, c, output, v, input);
    b' := Meaning(output + ResultOf(t.piece)).value;
    TurnKeeps(p, output, t.piece, v, a, b, a', b');
  }

  lemma StepBoundary(p: string, output: string, piece: Piece, v: Values)
    requires Faithful(piece, v) && (!piece.Inserted? ==> AtBoundary(SourceOf(piece)))
    requires piece.Inserted? ==> AtBoundary(p)
    ensures AtBoundary(p + SourceOf(piece)) && AtBoundary(output + ResultOf(piece))
  {
    hide AtBoundary, IsLine;
    ResultBoundary(output, piece, v);
    if piece.Inserted? {
      assert p + "" == p;
    } else {
      SourceBoundary(p, SourceOf(piece));
    }
  }

  lemma {:induction false} EditKeeps(p: string, c: Cursor, output: string, v: Values, a: State, b: State, input: string)
    requires PlainLines(v) && Paired(p, c, output, a, b) && EditFrom(c, output, v).Some?
    requires p + c.rest == input && Meaning(input).Ok?
    requires Meaning(output + Results(EditFrom(c, output, v).value)).Ok?
    ensures Same(Meaning(input).value, Meaning(output + Results(EditFrom(c, output, v).value)).value)
    decreases |c.rest|, if c.Owes() then 1 else 0
  {
    hide NextTurn, Meaning, PlainLines, Same, EditFrom, ResultOf, SourceOf, Results;
    var t := NextTurn(c, output, v);
    EditTurn(c, output, v);
    if t.Emit? {
      var output' := output + ResultOf(t.piece);
      TurnBoundary(c, output, v);
      OutputAccepted(t.next, output', v);
      var a', b' := PairedStep(p, c, output, v, a, b, input);
      hide Paired;
      EditKeeps(p + SourceOf(t.piece), t.next, output', v, a', b', input);
    } else {
      assert p + "" == p;
    }
  }

  /** An edit is its first turn and the rest. */
  lemma EditTurn(c: Cursor, output: string, v: Values)
    requires EditFrom(c, output, v).Some?
    ensures var t, r := NextTurn(c, output, v), output + Results(EditFrom(c, output, v).value);
      && !t.Rejected?
      && (t.Finished? ==> c.rest == "" && r == output)
      && (t.Emit? ==>
            var output' := output + ResultOf(t.piece);
            EditFrom(t.next, output', v).Some? && r == output' + Results(EditFrom(t.next, output', v).value))
  {
    var t := NextTurn(c, output, v);
    EditUnfold(c, output, v);
    hide NextTurn, EditFrom, ResultOf;
    if t.Emit? {
      var output' := output + ResultOf(t.piece);
      var rest := EditFrom(t.next, output', v).value;
      ResultsCons(t.piece, rest);
      hide Results;
      Glue(output, ResultOf(t.piece), Results(rest));
    } else {
      assert output + "" == output;
    }
  }

  lemma EditUnfold(c: Cursor, output: string, v: Values)
    requires EditFrom(c, output, v).Some?
    ensures var t := NextTurn(c, output, v);
      && !t.Rejected?
      && (t.Finished? ==> EditFrom(c, output, v).value == [])
      && (t.Emit? ==>
            var more := EditFrom(t.next, output + ResultOf(t.piece), v);
            more.Some? && EditFrom(c, output, v).value == [t.piece] + more.value)
  {
    hide NextTurn, ResultOf;
  }

  lemma ResultsCons(p: Piece, rest: seq<Piece>)
    ensures Results([p] + rest) == ResultOf(p) + Results(rest)
  {
    assert ([p] + rest)[1..] == rest;
  }

  lemma Glue(a: string, b: string, c: string)
    ensures a + (b + c) == a + b + c
  {
  }

  lemma TurnBoundary(c: Cursor, output: string, v: Values)
    requires NextTurn(c, output, v).Emit?
    ensures var t := NextTurn(c, output, v); t.next.rest != "" ==> AtBoundary(output + ResultOf(t.piece))
  {
    var t := NextTurn(c, output, v);
    TurnIsFaithful(c, output, v);
    TurnShape(c, output, v);
    hide NextTurn, Faithful;
    if t.next.rest != "" {
      ResultBoundary(output, t.piece, v);
    }
  }

  // ------------------------------------------------------------------- the theorem

  /** The configuration with the chosen targets and everything else as it was. */
  function Retargeted(c: Config, n: Choice): Config {
    c.(targetPci := Some(n.gpu), controllerPci := Some(n.controller), disk := Some(n.disk))
  }

  predicate Selects(c: Config, n: Choice) {
    c.targetPci == Some(n.gpu) && c.controllerPci == Some(n.controller) && c.disk == Some(n.disk)
  }

  ghost function EditOf(input: string, n: Choice): Option<string>
    requires n.Valid()
  {
    match Edit(input, n.Texts())
    case None => None
    case Some(ps) => Some(Results(ps))
  }

  lemma PlainTexts(n: Choice)
    requires n.Valid()
    ensures PlainLines(n.Texts())
  {
    hide Representable;
    forall t: Target ensures Unbroken(TargetLine(n.Texts(), t)) {
      TargetValueShape(n, t);
      TargetKeyShape(t);
      PairText(KeyOf(t), ValueOf(n.Texts(), t));
      PrintableIsUnbroken(TargetLine(n.Texts(), t));
    }
  }

  /** For every text: if it and its edit both parse, they agree on every setting
      that is not a target. */
  lemma EditKeepsSettings(input: string, n: Choice)
    requires n.Valid() && Parse(input).Ok?
    requires EditOf(input, n).Some? && Parse(EditOf(input, n).value).Ok?
    ensures Parse(EditOf(input, n).value).value.settings == Parse(input).value.settings
  {
    hide Representable, EditFrom, Results, MarkerIsValid;
    PlainTexts(n);
    StartRelated(n);
    var c, output := Cursor(input, Elsewhere, {}), EditOf(input, n).value;
    assert "" + input == input && "" + output == output;
    EditKeeps("", c, "", n.Texts(), INITIAL, INITIAL, input);
  }

  /** Exactly when editing commutes with parsing, for every text that parses: the
      edit exists and its parse selects the chosen targets.  The save checks both
      before it writes anything. */
  lemma EditCommutesExactly(input: string, n: Choice)
    requires n.Valid() && Parse(input).Ok?
    ensures EditOf(input, n).Some? && Parse(EditOf(input, n).value) == Ok(Retargeted(Parse(input).value, n)) <==>
            && EditOf(input, n).Some?
            && Parse(EditOf(input, n).value).Ok? && Selects(Parse(EditOf(input, n).value).value, n)
  {
    hide Parse, Representable;
    if EditOf(input, n).Some? && Parse(EditOf(input, n).value).Ok? {
      hide EditOf;
      EditKeepsSettings(input, n);
    }
  }
}
