/** Carriage returns inside a line: the parser does not see them, the editor
    does, so the two no longer commute. */
module IniReturns {
  import opened Basics
  import opened IniText
  import opened IniParser
  import opened IniLines
  import opened IniEdit
  import opened IniFormat
  import opened IniFormatMeaning

  /** The parser ignores a carriage return wherever it stands. */
  lemma ReturnIsInvisible(a: string, b: string)
    ensures Meaning(a + "\r" + b) == Meaning(a + b)
  {
    hide ProcessTrimmed, Trim;
    FeedConcat(START, a + "\r", b);
    FeedConcat(START, a, "\r");
    FeedOne(Feed(START, a), '\r');
    FeedConcat(START, a, b);
  }

  // -------------------------------------------------- an edit needs its target line

  predicate OccursAt(s: string, word: string, i: nat) {
    i + |word| <= |s| && EqualIgnoringCase(s[i..i + |word|], word)
  }

  /** The text does not contain the word, in any letter case. */
  ghost predicate Lacks(s: string, word: string) {
    forall i: nat :: !OccursAt(s, word, i)
  }

  lemma LacksSlice(s: string, word: string, a: nat, b: nat)
    requires Lacks(s, word) && a <= b <= |s|
    ensures Lacks(s[a..b], word)
  {
    var t := s[a..b];
    forall i: nat ensures !OccursAt(t, word, i) {
      assert !OccursAt(s, word, a + i);
      if i + |word| <= |t| {
        var u, w := t[i..i + |word|], s[a + i..a + i + |word|];
        assert forall k :: 0 <= k < |word| ==> u[k] == w[k];
        assert u == w;
      }
    }
  }

  lemma {:induction false} LacksTrimLeft(s: string, word: string)
    requires Lacks(s, word)
    ensures Lacks(TrimLeft(s), word)
  {
    hide Lacks;
    if s != "" && IsSpace(s[0]) {
      LacksSlice(s, word, 1, |s|);
      assert s[1..|s|] == s[1..];
      LacksTrimLeft(s[1..], word);
    }
  }

  lemma {:induction false} LacksTrimRight(s: string, word: string)
    requires Lacks(s, word)
    ensures Lacks(TrimRight(s), word) && Lacks(TrimRightCr(s), word)
  {
    hide Lacks;
    if s != "" {
      LacksSlice(s, word, 0, |s| - 1);
      LacksTrimRight(s[..|s| - 1], word);
    }
  }

  lemma LacksKey(line: string, word: string)
    requires Lacks(line, word)
    ensures var text := LineText(line); Lacks(TrimRight(text[..FirstEquals(text)]), word)
  {
    hide Lacks, TrimLeft, TrimRight, TrimRightCr, FirstEquals;
    var body := if line != "" && line[|line| - 1] == '\n' then line[..|line| - 1] else line;
    if line != "" {
      LacksSlice(line, word, 0, |line| - 1);
    }
    LacksTrimLeft(body, word);
    LacksTrimRight(TrimLeft(body), word);
    var text := LineText(line);
    LacksSlice(text, word, 0, FirstEquals(text));
    LacksTrimRight(text[..FirstEquals(text)], word);
  }

  lemma {:induction false} LacksSources(ps: seq<Piece>, word: string, p: Piece)
    requires Lacks(Sources(ps), word) && p in ps
    ensures Lacks(SourceOf(p), word)
  {
    hide Lacks;
    var all, first, rest := Sources(ps), SourceOf(ps[0]), Sources(ps[1..]);
    LacksSlice(all, word, 0, |first|);
    LacksSlice(all, word, |first|, |all|);
    assert all[0..|first|] == first && all[|first|..|all|] == rest;
    if p != ps[0] {
      LacksSources(ps[1..], word, p);
    }
  }

  lemma {:induction false} SetByPiece(ps: seq<Piece>, t: Target) returns (p: Piece)
    requires SetCount(ps, t) > 0
    ensures p in ps && Sets(p, t)
  {
    if Sets(ps[0], t) {
      p := ps[0];
    } else {
      p := SetByPiece(ps[1..], t);
    }
  }

  /** A text that does not contain the key of the GPU, unbroken, has no edit. */
  lemma EditNeedsKey(input: string, v: Values)
    requires Lacks(input, TARGET_PCI)
    ensures Edit(input, v).None?
  {
    hide EditFrom, Lacks;
    if Edit(input, v).Some? {
      EditIsExact(input, v);
      var ps := Edit(input, v).value;
      var p := SetByPiece(ps, Gpu);
      LacksSources(ps, TARGET_PCI, p);
      LacksKey(p.source, TARGET_PCI);
      var text := LineText(p.source);
      KeyIsThere(TrimRight(text[..FirstEquals(text)]), TARGET_PCI);
    }
  }

  lemma KeyIsThere(key: string, word: string)
    requires EqualIgnoringCase(key, word)
    ensures !Lacks(key, word)
  {
    assert key[0..0 + |word|] == key;
    assert OccursAt(key, word, 0);
  }

  // ------------------------------------------------------------- the failing text

  const GPU: Address := Address(0, 1, 0, 0)
  const CONTROLLER: Address := Address(0, 2, 0, 0)

  function GpuText(): string {
    FormatAddress(GPU, true)
  }

  function ControllerLine(): string {
    CONTROLLER_PCI + "=" + FormatAddress(CONTROLLER, true)
  }

  const HEAD: string := Join(FIXED_LINES) + "Target"

  function Tail(): string {
    "Pci=" + GpuText() + "\r\n" + Join(ENDPOINT_LINES + [ControllerLine()])
  }

  /** A small boot configuration, and the same text with a carriage return inside
      the key of its GPU. */
  function TidyText(): string {
    HEAD + Tail()
  }

  function BrokenText(): string {
    HEAD + "\r" + Tail()
  }

  lemma TidyTextLines()
    ensures TidyText() == Join(FIXED_LINES + [TARGET_PCI + "=" + GpuText()] + ENDPOINT_LINES + [ControllerLine()])
  {
    hide FormatAddress;
    var a, b := FIXED_LINES + [TARGET_PCI + "=" + GpuText()], ENDPOINT_LINES + [ControllerLine()];
    hide Join;
    JoinConcat(a, b);
    JoinOnto(FIXED_LINES, TARGET_PCI + "=" + GpuText());
    assert "Target" + "Pci=" == TARGET_PCI + "=";
    assert a + b == a + ENDPOINT_LINES + [ControllerLine()];
    assert TidyText() == Join(FIXED_LINES) + (("Target" + "Pci=") + GpuText() + "\r\n") + Join(b);
  }

  lemma TidyTextSize()
    ensures 0 < |TidyText()| <= 1000
  {
    TidyTextLines();
    FixedShape();
    hide FormatAddress, Join;
    var lines := FIXED_LINES + [TARGET_PCI + "=" + GpuText()] + ENDPOINT_LINES + [ControllerLine()];
    assert |lines| == 15;
    JoinUniform(lines, 32);
  }

  lemma JoinOnto(lines: seq<string>, last: string)
    ensures Join(lines + [last]) == Join(lines) + (last + "\r\n")
  {
    assert (lines + [last])[..|lines|] == lines;
  }

  lemma GpuSetting(now: State)
    requires now.section == Video && now.config.targetPci.None?
    ensures Accepted(now, TARGET_PCI, GpuText(), now.config.(targetPci := Some(GPU)))
  {
    AddressRoundTrip(GPU, true);
    hide FormatAddress, ParseAddress;
  }

  lemma ControllerSetting(now: State)
    requires now.section == Boot && now.config.controllerPci.None?
    ensures Accepted(now, CONTROLLER_PCI, FormatAddress(CONTROLLER, true),
                     now.config.(controllerPci := Some(CONTROLLER)))
  {
    AddressRoundTrip(CONTROLLER, true);
    ControllerKey();
    hide FormatAddress, ParseAddress, KeyShape, Printable, SetSetting;
  }

  lemma ControllerKey()
    ensures KeyShape(CONTROLLER_PCI) && Printable(CONTROLLER_PCI) && |CONTROLLER_PCI| == 19
  {
  }

  const AFTER_GPU: State := IN_VIDEO.(config := IN_VIDEO.config.(targetPci := Some(GPU)))
  const AFTER_CONTROLLER: State :=
    BootEntered(AFTER_GPU).(config := BootEntered(AFTER_GPU).config.(controllerPci := Some(CONTROLLER)))

  function TidyLines(): seq<string> {
    FIXED_LINES + [TARGET_PCI + "=" + GpuText()] + ENDPOINT_LINES + [ControllerLine()]
  }

  lemma GpuLinesMeaning()
    ensures Fold(Ok(INITIAL), FIXED_LINES + [TARGET_PCI + "=" + GpuText()]) == Ok(AFTER_GPU)
  {
    FixedMeaning();
    GpuSetting(IN_VIDEO);
    hide Fold, Accepted, GpuText;
    AcceptedStep(Ok(INITIAL), FIXED_LINES, IN_VIDEO, TARGET_PCI, GpuText(), IN_VIDEO.config.(targetPci := Some(GPU)));
  }

  lemma TidyLinesMeaning()
    ensures Fold(Ok(INITIAL), TidyLines()) == Ok(AFTER_CONTROLLER)
  {
    var st: Result<State> := Ok(INITIAL);
    var a := FIXED_LINES + [TARGET_PCI + "=" + GpuText()];
    var boot := BootEntered(AFTER_GPU);
    GpuLinesMeaning();
    EndpointMeaning(AFTER_GPU);
    ControllerSetting(boot);
    hide Fold, Accepted, FormatAddress, GpuText, BootEntered;
    FoldConcat(st, a, ENDPOINT_LINES);
    AcceptedStep(st, a + ENDPOINT_LINES, boot, CONTROLLER_PCI, FormatAddress(CONTROLLER, true),
                 boot.config.(controllerPci := Some(CONTROLLER)));
  }

  lemma TidyTextMeaning()
    ensures Meaning(TidyText()) == Ok(AFTER_CONTROLLER) && AtBoundary(TidyText())
  {
    TidyLinesMeaning();
    TidyTextLines();
    hide Fold, Meaning, Join, TidyText, AtBoundary;
    FoldOkLines(Ok(INITIAL), TidyLines());
    JoinMeaning(TidyLines());
  }

  lemma BrokenTextParses()
    ensures Parse(BrokenText()) == Ok(AFTER_CONTROLLER.config) && BootReady(AFTER_CONTROLLER.config)
  {
    TidyTextMeaning();
    ReturnIsInvisible(HEAD, Tail());
    ConcludeGenerated(AFTER_CONTROLLER);
    hide Meaning, Conclude, Tail;
  }

  /** No letter t directly followed by a letter p, in either case: the key of the
      GPU cannot occur. */
  predicate NoTp(s: string) {
    forall i :: 0 <= i < |s| - 1 && Lower(s[i]) == 't' ==> Lower(s[i + 1]) != 'p'
  }

  lemma KeyHasTp(s: string, i: nat)
    requires OccursAt(s, TARGET_PCI, i)
    ensures !NoTp(s)
  {
    assert TARGET_PCI[5] == 't' && TARGET_PCI[6] == 'P' && |TARGET_PCI| == 9;
    var w := s[i..i + 9];
    assert w[5] == s[i + 5] && w[6] == s[i + 5 + 1];
    assert Lower(w[5]) == 't' && Lower(w[6]) == 'p';
  }

  lemma NoTpLacksKey(s: string)
    requires NoTp(s)
    ensures Lacks(s, TARGET_PCI)
  {
    hide NoTp, OccursAt;
    forall i: nat ensures !OccursAt(s, TARGET_PCI, i) {
      if OccursAt(s, TARGET_PCI, i) {
        KeyHasTp(s, i);
      }
    }
  }

  lemma NoTpConcat(a: string, b: string)
    requires NoTp(a) && NoTp(b)
    requires a != "" && b != "" && Lower(a[|a| - 1]) == 't' ==> Lower(b[0]) != 'p'
    ensures NoTp(a + b)
  {
    var s := a + b;
    forall i | 0 <= i < |s| - 1 && Lower(s[i]) == 't' ensures Lower(s[i + 1]) != 'p' {
      if i >= |a| {
        assert s[i] == b[i - |a|] && s[i + 1] == b[i - |a| + 1];
      } else if i + 1 == |a| {
        assert s[i] == a[|a| - 1] && s[i + 1] == b[0];
      }
    }
  }

  lemma {:induction false} NoTpJoin(lines: seq<string>)
    requires forall i :: 0 <= i < |lines| ==> NoTp(lines[i])
    ensures NoTp(Join(lines)) && AtBoundary(Join(lines))
  {
    hide NoTp;
    if lines == [] {
      NoTpNothing();
    } else {
      var init, last := lines[..|lines| - 1], lines[|lines| - 1];
      NoTpJoin(init);
      NoTpNothing();
      NoTpConcat(Join(init), last);
      NoTpConcat(Join(init) + last, "\r\n");
    }
  }

  lemma NoTpNothing()
    ensures NoTp("") && NoTp("\r\n") && Lower('\r') != 'p' && Lower('\n') != 't'
  {
  }

  lemma NoTpAddress(a: Address)
    requires ValidAddress(a)
    ensures NoTp(FormatAddress(a, true)) && Lower(FormatAddress(a, true)[0]) != 'p'
  {
    HexIsNotP();
    hide HexChar, HexDigit;
    var s := FormatAddress(a, true);
    forall i | 0 <= i < 12 ensures Lower(s[i]) != 'p' {
      assert s[i] == ':' || s[i] == '.' || HexDigit(s[i]) >= 0;
    }
  }

  lemma HexIsNotP()
    ensures forall c :: HexDigit(c) >= 0 ==> Lower(c) != 'p'
  {
  }

  lemma NoTpFixed()
    ensures NoTp("[Marker]") && NoTp("Enabled=false") && NoTp("[Behavior]") && NoTp("Probe=false") && NoTp("[Video]")
  {
  }

  lemma NoTpEndpoint()
    ensures NoTp("[Endpoint]") && NoTp("IoDecoding=On") && NoTp("MemoryDecoding=On")
    ensures NoTp("BusMastering=Ignore") && NoTp("[Boot]")
  {
  }

  lemma NoTpKeys()
    ensures NoTp("Target") && NoTp("Pci=") && NoTp(CONTROLLER_PCI + "=")
  {
    assert CONTROLLER_PCI + "=" == "TargetControllerPci=";
  }

  lemma NoTpLines()
    ensures forall i :: 0 <= i < |FIXED_LINES| ==> NoTp(FIXED_LINES[i])
    ensures forall i :: 0 <= i < |ENDPOINT_LINES| ==> NoTp(ENDPOINT_LINES[i])
  {
    NoTpFixed();
    NoTpEndpoint();
    NoTpNothing();
    hide NoTp;
  }

  lemma NoTpBroken()
    ensures NoTp(BrokenText())
  {
    NoTpLines();
    NoTpKeys();
    NoTpNothing();
    NoTpAddress(GPU);
    NoTpAddress(CONTROLLER);
    hide NoTp, FormatAddress, Join;
    NoTpJoin(FIXED_LINES);
    NoTpConcat(Join(FIXED_LINES), "Target");
    NoTpReturn();
    NoTpConcat(HEAD, "\r");
    NoTpConcat("Pci=", GpuText());
    NoTpConcat("Pci=" + GpuText(), "\r\n");
    NoTpConcat(CONTROLLER_PCI + "=", FormatAddress(CONTROLLER, true));
    var lines := ENDPOINT_LINES + [ControllerLine()];
    NoTpJoin(lines);
    NoTpConcat("Pci=" + GpuText() + "\r\n", Join(lines));
    NoTpConcat(HEAD + "\r", Tail());
  }

  lemma NoTpReturn()
    ensures NoTp("\r") && Lower('\r') != 't' && Lower('P') == 'p'
  {
  }

  /** A carriage return inside a line breaks the commutation: here is a text that
      parses to a complete boot configuration and that no choice can edit. */
  lemma InnerReturnBreaksEditing(v: Values)
    ensures Parse(BrokenText()).Ok? && BootReady(Parse(BrokenText()).value)
    ensures Edit(BrokenText(), v).None?
  {
    BrokenTextParses();
    NoTpBroken();
    hide Parse, BootReady, NoTp, BrokenText, Lacks;
    NoTpLacksKey(BrokenText());
    EditNeedsKey(BrokenText(), v);
  }
}
