/** Editing the text and parsing it commute. */
module IniEditCommutes {
  import opened Basics
  import opened IniText
  import opened IniParser
  import opened IniLines
  import opened IniEdit

  /** Carriage returns only in runs at the end of a line or of the text. */
  predicate TidyReturns(text: string) {
    forall i :: 0 <= i < |text| && text[i] == '\r' ==>
      i + 1 == |text| || text[i + 1] == '\n' || text[i + 1] == '\r'
  }

  // ----------------------------------------------- both readers see the same line

  lemma {:induction false} TrimRightPlain(s: string)
    requires '\r' !in s
    ensures TrimRightCr(s) == TrimRight(s)
  {
    if s != "" {
      assert s[|s| - 1] in s;
      TrimRightPlain(s[..|s| - 1]);
    }
  }

  lemma {:induction false} TrimLeftReturns(s: string, n: nat)
    ensures TrimLeft(s + Returns(n)) == TrimLeft(s) + Returns(n)
    ensures '\r' !in s ==> '\r' !in TrimLeft(s)
  {
    if s != "" && IsSpace(s[0]) {
      assert (s + Returns(n))[1..] == s[1..] + Returns(n);
      TrimLeftReturns(s[1..], n);
    } else if s == "" {
      assert s + Returns(n) == Returns(n);
    }
  }

  lemma {:induction false} TrimRightReturns(s: string, n: nat)
    ensures TrimRightCr(s + Returns(n)) == TrimRightCr(s)
  {
    if n == 0 {
      assert s + Returns(0) == s;
    } else {
      assert (s + Returns(n))[..|s| + n - 1] == s + Returns(n - 1);
      TrimRightReturns(s, n - 1);
    }
  }

  /** The editor's view of a terminated line is the parser's. */
  lemma SameLineText(line: string, e: Ending)
    requires Unbroken(line)
    ensures LineText(line + Terminator(e)) == Trim(line)
  {
    hide TrimLeft, TrimRight, TrimRightCr;
    TrimLeftReturns(line, e.count);
    TrimRightPlain(TrimLeft(line));
    TrimRightReturns(TrimLeft(line), e.count);
    var whole, body := line + Terminator(e), line + Returns(e.count);
    if e.feed {
      assert whole == body + "\n";
      assert whole[..|whole| - 1] == body;
    } else {
      assert whole == body;
      assert whole == "" || whole[|whole| - 1] in whole;
      assert whole == "" || whole[|whole| - 1] != '\n';
    }
  }

  lemma UnbrokenHead(line: string, rest: string)
    requires Unbroken(line)
    ensures line != "" ==> (line + rest)[0] != '\r'
  {
    assert line != "" ==> line[0] in line;
  }

  /** Text without line feeds, split before its closing carriage returns. */
  lemma {:induction false} SplitReturns(s: string) returns (line: string, n: nat)
    requires TidyReturns(s) && '\n' !in s
    ensures s == line + Returns(n) && Unbroken(line)
  {
    if s == "" {
      return "", 0;
    }
    var tail := s[1..];
    TidyPart(s, 1, |s|);
    assert s[1..|s|] == tail;
    line, n := SplitReturns(tail);
    assert s == [s[0]] + tail && s[0] in s;
    UnbrokenHead(line, Returns(n));
    assert tail != "" ==> tail[0] == s[1] && s[1] in s;
    hide Returns;
    if s[0] == '\r' {
      assert line == "";
      ReturnsMore(n);
      line, n := "", n + 1;
      assert s == Returns(n) && "" + Returns(n) == Returns(n);
    } else {
      assert [s[0]] + (line + Returns(n)) == [s[0]] + line + Returns(n);
      line := [s[0]] + line;
    }
  }

  lemma ReturnsMore(n: nat)
    ensures ['\r'] + ("" + Returns(n)) == Returns(n + 1)
  {
  }

  /** The first line of tidy text. */
  lemma FirstLine(rest: string) returns (line: string, e: Ending)
    requires rest != "" && TidyReturns(rest)
    ensures var n := LineLength(rest);
      && Unbroken(line) && rest[..n] == line + Terminator(e) && TidyReturns(rest[n..])
      && (n < |rest| ==> e.feed)
  {
    var n := LineLength(rest);
    var feed := rest[n - 1] == '\n';
    var body := if feed then rest[..n - 1] else rest[..n];
    TidyPart(rest, 0, |body|);
    TidyPart(rest, n, |rest|);
    assert '\n' !in body by {
      assert !feed ==> body == rest[..n - 1] + [rest[n - 1]];
    }
    assert body == rest[0..|body|] && rest[n..|rest|] == rest[n..];
    var k: nat;
    line, k := SplitReturns(body);
    e := Ending(k, feed);
    assert rest[..n] == body + (if feed then "\n" else "");
  }

  /** Every part of tidy text is tidy. */
  lemma TidyPart(text: string, from: nat, to: nat)
    requires TidyReturns(text) && from <= to <= |text|
    ensures TidyReturns(text[from..to])
  {
    var part := text[from..to];
    forall i | 0 <= i < |part| && part[i] == '\r'
      ensures i + 1 == |part| || part[i + 1] == '\n' || part[i + 1] == '\r' {
      assert text[from + i] == '\r';
    }
  }

  // ------------------------------------------------------ the two parses, related

  function AreaOf(section: Section): Area {
    match section
    case Video => InVideo
    case Boot => InBoot
    case _ => Elsewhere
  }

  /** The new targets. */
  datatype Choice = Choice(gpu: Address, controller: Address, disk: string)
  {
    ghost predicate Valid() {
      ValidAddress(gpu) && ValidAddress(controller) && Representable(disk)
    }

    function Texts(): Values
      requires Valid()
    {
      Values(FormatAddress(gpu, false), FormatAddress(controller, false), Encode(disk))
    }
  }

  /** The configuration with the new targets, as far as they have been seen. */
  function Retarget(c: Config, seen: set<Target>, n: Choice): Config {
    Config(if Gpu in seen then Some(n.gpu) else None,
           if Controller in seen then Some(n.controller) else None,
           if Disk in seen then Some(n.disk) else None,
           c.settings)
  }

  /** Input and output parses agree on everything but the targets.  A
      description may already have been inserted for a section being left. */
  ghost predicate Loose(a: State, b: State, area: Area, seen: set<Target>, n: Choice) {
    && b == a.(config := Retarget(a.config, seen, n))
    && area == AreaOf(a.section)
    && (Gpu in seen <==> a.config.targetPci.Some?)
    && (Controller in seen <==> a.config.controllerPci.Some?)
    && (a.config.disk.Some? ==> Disk in seen)
    && (a.section == Boot ==> Boot in a.seen)
    && (Boot in a.seen && a.section != Boot ==> Disk in seen)
    && (a.config.controllerPci.Some? || Disk in seen ==> Boot in a.seen)
  }

  ghost predicate Related(a: State, b: State, area: Area, seen: set<Target>, n: Choice) {
    && Loose(a, b, area, seen, n)
    && (a.section == Boot && Disk in seen ==> a.config.disk.Some?)
  }

  // ------------------------------------------------------------- lines of a target

  lemma TargetValueShape(n: Choice, t: Target)
    requires n.Valid()
    ensures var s := ValueOf(n.Texts(), t);
      Tight(s) && '=' !in s && Printable(s) && |s| <= 130
  {
    EncodeShape(n.disk);
    hide FormatAddress, Encode, Representable;
  }

  lemma TargetKeyShape(t: Target)
    ensures KeyShape(KeyOf(t)) && Printable(KeyOf(t)) && |KeyOf(t)| <= 20
  {
  }

  predicate Belongs(t: Target, section: Section) {
    if t == Gpu then section == Video else section == Boot
  }

  /** A new target line sets its target. */
  lemma TargetLineParses(b: State, t: Target, a: State, seen: set<Target>, n: Choice)
    requires n.Valid() && Belongs(t, b.section) && t !in seen
    requires b == a.(config := Retarget(a.config, seen, n))
    ensures Unbroken(TargetLine(n.Texts(), t))
    ensures ParseLine(Ok(b), TargetLine(n.Texts(), t)) == Ok(a.(config := Retarget(a.config, seen + {t}, n)))
  {
    TargetKeyShape(t);
    TargetValueShape(n, t);
    var key, value := KeyOf(t), ValueOf(n.Texts(), t);
    PairLine(b, key, value);
    PrintableIsUnbroken(TargetLine(n.Texts(), t));
    SetTarget(b, t, a, seen, n);
  }

  lemma PrintableIsUnbroken(line: string)
    requires LineOk(line)
    ensures Unbroken(line)
  {
  }

  lemma SetTarget(b: State, t: Target, a: State, seen: set<Target>, n: Choice)
    requires n.Valid() && Belongs(t, b.section) && t !in seen
    requires b == a.(config := Retarget(a.config, seen, n))
    ensures SetKeyValue(b.config, b.section, KeyOf(t), ValueOf(n.Texts(), t)) == Ok(Retarget(a.config, seen + {t}, n))
  {
    AddressRoundTrip(n.gpu, false);
    AddressRoundTrip(n.controller, false);
    DiskRoundTrip(n.disk);
    hide FormatAddress, ParseAddress, Encode, DecodeDisk, SetSetting, Representable;
  }

  // --------------------------------------------------- the kinds of an accepted line

  lemma SameLength(a: string, b: string)
    ensures EqualIgnoringCase(a, b) ==> |a| == |b|
    ensures EqualIgnoringCase(a, a)
  {
  }

  lemma HeaderArea(t: string)
    requires SectionOf(t).Some?
    ensures |t| >= 2 && t[0] == '[' && t[|t| - 1] == ']'
    ensures AreaNamed(t[1..|t| - 1]) == AreaOf(SectionOf(t).value)
  {
    hide EqualIgnoringCase;
    var name := t[1..|t| - 1];
    SameLength(name, "Video");
    SameLength(name, "Boot");
    SameLength("Video", "Video");
    SameLength("Boot", "Boot");
    if t == "[Video]" {
      assert name == "Video";
    } else if t == "[Boot]" {
      assert name == "Boot";
    }
  }

  lemma SettingKeyLength(s: Settings, section: Section, key: string, value: string)
    requires SetSetting(s, section, key, value).Ok?
    ensures section == Video ==> |key| in {14, 23}
    ensures section == Boot ==> |key| in {18, 23}
  {
    hide ParseHex16, CopyText, SetMarker, SetEndpoint, SetBehavior;
  }

  lemma SameKey(t: string)
    requires Tight(t)
    ensures var e := FirstEquals(t); Trim(t[..e]) == TrimRight(t[..e])
  {
    hide TrimRight, FirstEquals;
    var e := FirstEquals(t);
    if e > 0 {
      assert t[..e][0] == t[0];
    }
  }

  /** The line leaves the targets alone and changes the settings the same way
      whatever the targets are. */
  ghost predicate IndependentOfTargets(a: State, t: string, a': State) {
    && a' == a.(config := a.config.(settings := a'.config.settings))
    && forall c: Config {:trigger a.(config := c)} :: c.settings == a.config.settings ==>
         ProcessTrimmed(a.(config := c), t) == Ok(a.(config := c.(settings := a'.config.settings)))
  }

  ghost predicate EntersSection(a: State, t: string, a': State) {
    && a'.config == a.config && a'.section !in a.seen && a'.seen == a.seen + {a'.section}
    && forall c: Config {:trigger a.(config := c)} :: ProcessTrimmed(a.(config := c), t) == Ok(a'.(config := c))
  }

  function TargetSet(c: Config): set<Target> {
    (if c.targetPci.Some? then {Gpu} else {}) +
    (if c.controllerPci.Some? then {Controller} else {}) +
    (if c.disk.Some? then {Disk} else {})
  }

  ghost predicate SetsTarget(a: State, target: Target, a': State) {
    && Belongs(target, a.section)
    && target !in TargetSet(a.config) && TargetSet(a'.config) == TargetSet(a.config) + {target}
    && a'.config.settings == a.config.settings && a' == a.(config := a'.config)
  }

  ghost predicate Agrees(kind: Kind, a: State, t: string, a': State) {
    match kind
    case Plain => IndependentOfTargets(a, t, a')
    case Header(area) => area == AreaOf(a'.section) && EntersSection(a, t, a')
    case Assigns(target) => SetsTarget(a, target, a')
  }

  lemma HeaderAgrees(a: State, t: string, a': State)
    requires ProcessTrimmed(a, t) == Ok(a') && t != "" && t[0] == '['
    ensures Agrees(KindOf(t, AreaOf(a.section)), a, t, a')
  {
    HeaderArea(t);
    hide SectionOf, AreaNamed, SplitPair;
    assert KindOf(t, AreaOf(a.section)) == Header(AreaOf(a'.section));
  }

  lemma PairAgrees(a: State, t: string, a': State)
    requires ProcessTrimmed(a, t) == Ok(a') && Tight(t) && t[0] != '[' && !IsBlankOrComment(t)
    ensures Agrees(KindOf(t, AreaOf(a.section)), a, t, a')
  {
    var pair := SplitPair(t).value;
    var e := FirstEquals(t);
    SameKey(t);
    assert KindOf(t, AreaOf(a.section)) == KeyKind(pair.0, a.section) by {
      hide FirstEquals, EqualIgnoringCase, TrimRight;
    }
    hide SplitPair, KindOf, SectionOf, FirstEquals, TrimRight, Trim;
    KeyAgrees(a, pair.0, pair.1, a'.config);
    if KeyKind(pair.0, a.section).Plain? {
      forall c: Config | c.settings == a.config.settings
        ensures ProcessTrimmed(a.(config := c), t) == Ok(a.(config := c.(settings := a'.config.settings)))
      {
        PlainPairStep(a, t, pair.0, pair.1, a'.config, c);
      }
    }
  }

  lemma PlainPairStep(a: State, t: string, key: string, value: string, c': Config, c: Config)
    requires !IsBlankOrComment(t) && t[0] != '[' && a.section != NoSection && SplitPair(t) == Some((key, value))
    requires SetSetting(a.config.settings, a.section, key, value) == Ok(c'.settings)
    requires !(a.section == Video && key == TARGET_PCI)
    requires !(a.section == Boot && (key == CONTROLLER_PCI || key == BBS_DESCRIPTION))
    requires c.settings == a.config.settings
    ensures ProcessTrimmed(a.(config := c), t) == Ok(a.(config := c.(settings := c'.settings)))
  {
    hide SplitPair, SetSetting, SectionOf, ParseAddress, DecodeDisk;
  }

  function KeyKind(key: string, section: Section): Kind {
    if section == Video && EqualIgnoringCase(key, TARGET_PCI) then Assigns(Gpu)
    else if section == Boot && EqualIgnoringCase(key, CONTROLLER_PCI) then Assigns(Controller)
    else if section == Boot && EqualIgnoringCase(key, BBS_DESCRIPTION) then Assigns(Disk)
    else Plain
  }

  /** An accepted key is a target exactly when the editor thinks so. */
  lemma KeyAgrees(a: State, key: string, value: string, c': Config)
    requires SetKeyValue(a.config, a.section, key, value) == Ok(c')
    ensures match KeyKind(key, a.section)
      case Plain =>
        && SetSetting(a.config.settings, a.section, key, value) == Ok(c'.settings)
        && c' == a.config.(settings := c'.settings)
        && !(a.section == Video && key == TARGET_PCI)
        && !(a.section == Boot && (key == CONTROLLER_PCI || key == BBS_DESCRIPTION))
      case Header(_) => false
      case Assigns(target) => SetsTarget(a, target, a.(config := c'))
  {
    SameLength(key, TARGET_PCI);
    SameLength(key, CONTROLLER_PCI);
    SameLength(key, BBS_DESCRIPTION);
    if SetSetting(a.config.settings, a.section, key, value).Ok? {
      SettingKeyLength(a.config.settings, a.section, key, value);
    }
    hide EqualIgnoringCase, SetSetting, ParseAddress, DecodeDisk;
  }

  lemma LineAgrees(a: State, line: string, a': State)
    requires ParseLine(Ok(a), line) == Ok(a')
    ensures Agrees(KindOf(Trim(line), AreaOf(a.section)), a, Trim(line), a')
  {
    var t := Trim(line);
    if IsBlankOrComment(t) {
      hide Trim, SplitPair, SectionOf, SetKeyValue;
      assert KindOf(t, AreaOf(a.section)) == Plain;
    } else if t[0] == '[' {
      HeaderAgrees(a, t, a');
    } else {
      PairAgrees(a, t, a');
    }
  }

  // -------------------------------------------------------------- one turn, related

  /** The line in the output parse. */
  lemma KeptLine(a: State, b: State, line: string, a': State, area: Area, seen: set<Target>, n: Choice)
    requires ParseLine(Ok(a), line) == Ok(a') && Loose(a, b, area, seen, n)
    requires !KindOf(Trim(line), area).Assigns?
    requires KindOf(Trim(line), area).Plain? ==> Related(a, b, area, seen, n)
    requires KindOf(Trim(line), area).Header? ==> !(area == InBoot && Disk !in seen)
    ensures var area' := if KindOf(Trim(line), area).Header? then KindOf(Trim(line), area).area else area;
      ParseLine(Ok(b), line) == Ok(a'.(config := Retarget(a'.config, seen, n))) &&
      Related(a', a'.(config := Retarget(a'.config, seen, n)), area', seen, n)
  {
    LineAgrees(a, line, a');
    hide ProcessTrimmed, KindOf, Trim, LineOk;
    assert b == a.(config := b.config);
  }

  lemma ReplacedLine(a: State, line: string, a': State, area: Area, seen: set<Target>, n: Choice, b: State)
    requires n.Valid()
    requires ParseLine(Ok(a), line) == Ok(a') && Related(a, b, area, seen, n)
    requires KindOf(Trim(line), area).Assigns?
    ensures var t := KindOf(Trim(line), area).target;
      && t !in seen
      && Unbroken(TargetLine(n.Texts(), t))
      && ParseLine(Ok(b), TargetLine(n.Texts(), t)) == Ok(a'.(config := Retarget(a'.config, seen + {t}, n)))
      && Related(a', a'.(config := Retarget(a'.config, seen + {t}, n)), area, seen + {t}, n)
  {
    LineAgrees(a, line, a');
    hide ProcessTrimmed, KindOf, Trim, LineOk, TargetLine, Representable;
    var t := KindOf(Trim(line), area).target;
    assert t !in seen;
    TargetLineParses(b, t, a, seen, n);
    assert Retarget(a'.config, seen + {t}, n) == Retarget(a.config, seen + {t}, n);
  }

  lemma InsertedLine(a: State, b: State, area: Area, seen: set<Target>, n: Choice)
    requires n.Valid() && Related(a, b, area, seen, n) && area == InBoot && Disk !in seen
    ensures Unbroken(TargetLine(n.Texts(), Disk))
    ensures ParseLine(Ok(b), TargetLine(n.Texts(), Disk)) == Ok(a.(config := Retarget(a.config, seen + {Disk}, n)))
    ensures Loose(a, a.(config := Retarget(a.config, seen + {Disk}, n)), area, seen + {Disk}, n)
  {
    hide Representable, TargetLine;
    TargetLineParses(b, Disk, a, seen, n);
  }

  // ------------------------------------------------------------------ whole texts

  lemma AppendedText(output: string, line: string, e: Ending, text: string)
    requires AtBoundary(output) && Unbroken(line) && text == line + Terminator(e)
    ensures Meaning(output + text) == ParseLine(Meaning(output), line)
    ensures e.feed ==> AtBoundary(output + text)
  {
    hide Meaning, ParseLine;
    AppendLine(output, line, e);
    assert output + line + Terminator(e) == output + text;
    if e.feed {
      assert text[|text| - 1] == '\n';
    }
  }

  lemma InsertedText(output: string, v: Values)
    requires Unbroken(TargetLine(v, Disk))
    ensures Meaning(output + Insertion(output, v)) == ParseLine(Meaning(output), TargetLine(v, Disk))
    ensures AtBoundary(output + Insertion(output, v))
  {
    hide Meaning, ParseLine, TargetLine;
    var line := TargetLine(v, Disk);
    EndLine(output);
    var start := if AtBoundary(output) then output else output + "\r\n";
    CrLfText();
    AppendedText(start, line, CRLF, line + "\r\n");
    assert output + Insertion(output, v) == start + (line + "\r\n");
  }

  lemma PrefixParses(p: string, rest: string)
    requires AtBoundary(p) || rest == ""
    requires Meaning(p + rest).Ok?
    ensures Meaning(p).Ok?
  {
    hide ProcessTrimmed;
    if rest == "" {
      assert p + rest == p;
    } else {
      BoundaryScan(p);
      FeedConcat(START, p, rest);
      if Feed(START, p).Err? {
        FeedError(Feed(START, p), rest);
      }
    }
  }

  /** The result of a rewrite from a cursor on. */
  ghost predicate Rewrites(c: Cursor, output: string, n: Choice, final: State)
    requires n.Valid()
  {
    var r := EditFrom(c, output, n.Texts());
    r.Some? && Meaning(output + Results(r.value)) ==
               Ok(final.(config := Retarget(final.config, {Gpu, Controller, Disk}, n)))
  }

  lemma RewritesStep(c: Cursor, output: string, n: Choice, final: State)
    requires n.Valid() && NextTurn(c, output, n.Texts()).Emit?
    requires var t := NextTurn(c, output, n.Texts()); Rewrites(t.next, output + ResultOf(t.piece), n, final)
    ensures Rewrites(c, output, n, final)
  {
    hide NextTurn, Meaning, Representable, ResultOf;
    var t := NextTurn(c, output, n.Texts());
    var ps := EditFrom(t.next, output + ResultOf(t.piece), n.Texts()).value;
    assert EditFrom(c, output, n.Texts()) == Some([t.piece] + ps);
    assert ([t.piece] + ps)[1..] == ps;
    assert output + Results([t.piece] + ps) == output + ResultOf(t.piece) + Results(ps);
  }

  lemma RewritesEnd(c: Cursor, output: string, n: Choice, a: State)
    requires n.Valid() && c.rest == "" && !c.Owes() && c.seen == {Gpu, Controller, Disk}
    requires Meaning(output) == Ok(a.(config := Retarget(a.config, c.seen, n)))
    ensures Rewrites(c, output, n, a)
  {
    hide Meaning, Representable;
    EndSettled(c, output, n.Texts());
    assert Results([]) == "";
    assert output + "" == output;
  }

  lemma AllTargets(seen: set<Target>)
    requires Gpu in seen && Controller in seen && Disk in seen
    ensures seen == {Gpu, Controller, Disk}
  {
    forall t: Target ensures t in seen && t in {Gpu, Controller, Disk} {
      match t
      case Gpu =>
      case Controller =>
      case Disk =>
    }
  }

  /** At the end of the input, with every target the input had. */
  lemma SimulateEnd(c: Cursor, output: string, a: State, b: State, n: Choice)
    requires n.Valid() && c.rest == ""
    requires Meaning(output) == Ok(b) && Related(a, b, c.area, c.seen, n)
    requires a.config.targetPci.Some? && a.config.controllerPci.Some?
    ensures Rewrites(c, output, n, a)
  {
    hide Meaning, Representable, Insertion, NextTurn, EditFrom, Rewrites;
    if c.Owes() {
      InsertedLine(a, b, c.area, c.seen, n);
      InsertedText(output, n.Texts());
      var next := c.(seen := c.seen + {Disk});
      AllTargets(next.seen);
      RewritesEnd(next, output + Insertion(output, n.Texts()), n, a);
      EndOwes(c, output, n.Texts());
      RewritesStep(c, output, n, a);
    } else {
      AllTargets(c.seen);
      RewritesEnd(c, output, n, a);
    }
  }

  /** One accepted input line and the turns that rewrite it: the output parse
      follows the input parse. */
  lemma SimulateLine(c: Cursor, output: string, line: string, e: Ending, a: State, b: State, a': State, n: Choice)
    returns (c': Cursor, output': string, b': State)
    requires n.Valid() && c.rest != "" && AtBoundary(output) && Unbroken(line)
    requires c.rest[..LineLength(c.rest)] == line + Terminator(e)
    requires Meaning(output) == Ok(b) && Related(a, b, c.area, c.seen, n)
    requires ParseLine(Ok(a), line) == Ok(a')
    ensures c'.rest == c.rest[LineLength(c.rest)..]
    ensures Meaning(output') == Ok(b') && Related(a', b', c'.area, c'.seen, n)
    ensures e.feed ==> AtBoundary(output')
    ensures forall final :: Rewrites(c', output', n, final) ==> Rewrites(c, output, n, final)
  {
    hide Meaning, Representable, Insertion, NextTurn, EditFrom, Rewrites, Loose, ParseLine, KindOf, TargetLine;
    hide LineText, LineLength;
    var v := n.Texts();
    SameLineText(line, e);
    var kind := CursorKind(c);
    assert kind == KindOf(Trim(line), c.area);
    if kind.Header? && c.Owes() {
      c', output', b' := SimulateHeader(c, output, line, e, a, b, a', n);
    } else if kind.Assigns? {
      ReplacedLine(a, line, a', c.area, c.seen, n, b);
      var t := kind.target;
      CrLfText();
      AppendedText(output, TargetLine(v, t), CRLF, TargetLine(v, t) + "\r\n");
      AssignsReplaced(c, output, v);
      var turn := NextTurn(c, output, v);
      c', output', b' := turn.next, output + ResultOf(turn.piece), a'.(config := Retarget(a'.config, c.seen + {t}, n));
      forall final | Rewrites(c', output', n, final) ensures Rewrites(c, output, n, final) {
        RewritesStep(c, output, n, final);
      }
    } else {
      c', output', b' := SimulateKept(c, output, line, e, a, b, a', n);
    }
  }

  lemma SimulateKept(c: Cursor, output: string, line: string, e: Ending, a: State, b: State, a': State, n: Choice)
    returns (c': Cursor, output': string, b': State)
    requires n.Valid() && c.rest != "" && AtBoundary(output) && Unbroken(line)
    requires c.rest[..LineLength(c.rest)] == line + Terminator(e) && CursorKind(c) == KindOf(Trim(line), c.area)
    requires !CursorKind(c).Assigns? && (CursorKind(c).Header? ==> !c.Owes())
    requires Meaning(output) == Ok(b) && Loose(a, b, c.area, c.seen, n)
    requires CursorKind(c).Plain? ==> Related(a, b, c.area, c.seen, n)
    requires ParseLine(Ok(a), line) == Ok(a')
    ensures c'.rest == c.rest[LineLength(c.rest)..]
    ensures Meaning(output') == Ok(b') && Related(a', b', c'.area, c'.seen, n)
    ensures e.feed ==> AtBoundary(output')
    ensures forall final :: Rewrites(c', output', n, final) ==> Rewrites(c, output, n, final)
  {
    hide Meaning, Representable, Insertion, NextTurn, EditFrom, Rewrites, Related, Loose, ParseLine, KindOf, LineText;
    hide LineLength;
    var v := n.Texts();
    KeptLine(a, b, line, a', c.area, c.seen, n);
    AppendedText(output, line, e, c.rest[..LineLength(c.rest)]);
    if CursorKind(c).Header? {
      HeaderKept(c, output, v);
    } else {
      PlainKept(c, output, v);
    }
    var turn := NextTurn(c, output, v);
    c', output', b' := turn.next, output + ResultOf(turn.piece), a'.(config := Retarget(a'.config, c.seen, n));
    forall final | Rewrites(c', output', n, final) ensures Rewrites(c, output, n, final) {
      RewritesStep(c, output, n, final);
    }
  }

  /** Leaving [Boot] without a description: the insertion, then the header. */
  lemma SimulateHeader(c: Cursor, output: string, line: string, e: Ending, a: State, b: State, a': State, n: Choice)
    returns (c': Cursor, output': string, b': State)
    requires n.Valid() && c.rest != "" && AtBoundary(output) && Unbroken(line)
    requires c.rest[..LineLength(c.rest)] == line + Terminator(e) && CursorKind(c) == KindOf(Trim(line), c.area)
    requires CursorKind(c).Header? && c.Owes()
    requires Meaning(output) == Ok(b) && Related(a, b, c.area, c.seen, n)
    requires ParseLine(Ok(a), line) == Ok(a')
    ensures c'.rest == c.rest[LineLength(c.rest)..]
    ensures Meaning(output') == Ok(b') && Related(a', b', c'.area, c'.seen, n)
    ensures e.feed ==> AtBoundary(output')
    ensures forall final :: Rewrites(c', output', n, final) ==> Rewrites(c, output, n, final)
  {
    hide Meaning, Representable, Insertion, NextTurn, EditFrom, Rewrites, Related, Loose, ParseLine, KindOf, LineText;
    hide LineLength, TargetLine;
    var v := n.Texts();
    InsertedLine(a, b, c.area, c.seen, n);
    InsertedText(output, v);
    HeaderOwes(c, output, v);
    var middle := output + Insertion(output, v);
    var settled := c.(seen := c.seen + {Disk});
    c', output', b' :=
      SimulateKept(settled, middle, line, e, a, a.(config := Retarget(a.config, settled.seen, n)), a', n);
    forall final | Rewrites(c', output', n, final) ensures Rewrites(c, output, n, final) {
      RewritesStep(c, output, n, final);
    }
  }

  lemma {:induction false} Simulate(p: string, c: Cursor, output: string, a: State, b: State, n: Choice, final: State)
    requires n.Valid() && AtBoundary(p) && TidyReturns(c.rest)
    requires c.rest != "" ==> AtBoundary(output)
    requires Meaning(p) == Ok(a) && Meaning(output) == Ok(b) && Related(a, b, c.area, c.seen, n)
    requires Meaning(p + c.rest) == Ok(final)
    requires final.config.targetPci.Some? && final.config.controllerPci.Some?
    ensures Rewrites(c, output, n, final)
    decreases |c.rest|
  {
    hide Meaning, Representable, EditFrom, Rewrites, Related, ParseLine, LineLength, AtBoundary;
    if c.rest == "" {
      assert p + c.rest == p;
      SimulateEnd(c, output, a, b, n);
    } else {
      var line, e := FirstLine(c.rest);
      var k := LineLength(c.rest);
      var first, rest := c.rest[..k], c.rest[k..];
      assert p + first + rest == p + c.rest by { assert first + rest == c.rest; }
      AppendedText(p, line, e, first);
      PrefixParses(p + first, rest);
      var a' := Meaning(p + first).value;
      var c', output', b' := SimulateLine(c, output, line, e, a, b, a', n);
      if rest == "" {
        assert p + first == p + first + rest;
        SimulateEnd(c', output', a', b', n);
      } else {
        Simulate(p + first, c', output', a', b', n, final);
      }
    }
  }

  lemma StartRelated(n: Choice)
    requires n.Valid()
    ensures Meaning("") == Ok(INITIAL) && Related(INITIAL, INITIAL, Elsewhere, {}, n)
  {
    hide Representable;
    BoundaryScan("");
  }

  /** For every usable boot configuration with tidy line ends, and every
      well-formed choice of distinct addresses and a representable disk name,
      the edited text parses to the same configuration with only the three
      targets replaced. */
  lemma EditCommutesWithParsing(input: string, n: Choice)
    requires TidyReturns(input) && Parse(input).Ok? && BootReady(Parse(input).value)
    requires n.Valid() && n.gpu != n.controller
    ensures Edit(input, n.Texts()).Some?
    ensures Parse(Results(Edit(input, n.Texts()).value)) ==
            Ok(Parse(input).value.(targetPci := Some(n.gpu), controllerPci := Some(n.controller), disk := Some(n.disk)))
  {
    hide Representable, EditFrom, Related, Results, MarkerIsValid;
    var final := Meaning(input).value;
    StartRelated(n);
    assert "" + input == input;
    Simulate("", Cursor(input, Elsewhere, {}), "", INITIAL, INITIAL, n, final);
    var output := Results(Edit(input, n.Texts()).value);
    assert "" + output == output;
  }
}
