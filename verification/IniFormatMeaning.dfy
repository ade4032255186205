/** The formatted text: it always fits, and it parses to the selection. */
module IniFormatMeaning {
  import opened Basics
  import opened IniText
  import opened IniParser
  import opened IniLines
  import opened IniFormat

  // --------------------------------------------------------------- comment lines

  /** A printable comment of bounded length. */
  ghost predicate Comment(line: string, bound: nat) {
    line != "" && line[0] == '#' && |line| <= bound && Printable(line)
  }

  lemma CommentConcat(prefix: string, suffix: string, a: nat, b: nat)
    requires Comment(prefix, a) && Printable(suffix) && |suffix| <= b
    ensures Comment(prefix + suffix, a + b)
  {
  }

  lemma BdfPrintable(a: Address)
    ensures Printable(Bdf(a)) && |Bdf(a)| == 12
  {
    hide Hex;
  }

  lemma HeadLine(name: string, index: nat, active: bool)
    requires Comment(name, 20) && index < 99
    ensures Comment(HeadText(name, index, active), 33)
  {
    DecLengths(index + 1);
    hide Dec;
    CommentConcat(name, Dec(index + 1), 20, 2);
    CommentConcat(name + Dec(index + 1), if active then " - selected" else "", 22, 11);
  }

  lemma IdentityLine(d: Display)
    ensures Comment(IdentityText(d), 45)
  {
    hide Hex;
    var s := "# PCI identity: ";
    CommentConcat(s, Hex(d.vendor, 4), 16, 4);
    s := s + Hex(d.vendor, 4);
    CommentConcat(s, ":", 20, 1);
    s := s + ":";
    CommentConcat(s, Hex(d.deviceId, 4), 21, 4);
    s := s + Hex(d.deviceId, 4);
    CommentConcat(s, " subsystem ", 25, 11);
    s := s + " subsystem ";
    CommentConcat(s, Hex(d.subsystemVendor, 4), 36, 4);
    s := s + Hex(d.subsystemVendor, 4);
    CommentConcat(s, ":", 40, 1);
    s := s + ":";
    CommentConcat(s, Hex(d.subsystemDevice, 4), 41, 4);
  }

  lemma GopLine(d: Display)
    ensures Comment(GopText(d), 50)
  {
    CommentConcat("# GOP association: ",
                  if !d.gopKnown then "unknown (ranked conservatively)" else YesNo(d.gop), 19, 31);
  }

  lemma OwnerLine(d: Display)
    ensures Comment(OwnerText(d), 68)
  {
    CommentConcat("# Active legacy VGA owner: ",
                  if !d.ownerKnown then "unknown (ranked conservatively as active)" else YesNo(d.owner), 27, 41);
  }

  lemma RomLines(d: Display)
    ensures Comment(ExposedText(d), 25) && Comment(AcceptedText(d), 27)
  {
    CommentConcat("# Option ROM exposed: ", YesNo(d.romExposed), 22, 3);
    CommentConcat("# Valid legacy x86 ROM: ", YesNo(d.romAccepted), 24, 3);
  }

  lemma PathLines(d: Display)
    ensures Comment(DiscoveredText(d), 31) && Comment(ValidatedText(d), 34)
  {
    CommentConcat("# Upstream path discovered: ", YesNo(d.pathDiscovered), 28, 3);
    CommentConcat("# Upstream path validation: ", if d.pathValidated then "passed" else "failed", 28, 6);
  }

  lemma HexPrintable(value: nat, digits: nat)
    ensures Printable(Hex(value, digits)) && |Hex(value, digits)| == digits
  {
    hide Hex;
  }

  lemma RawLabels()
    ensures Comment("# PCI location unavailable: segment=0x", 38)
    ensures Printable(" bus=0x") && Printable(" device=0x") && Printable(" function=0x")
    ensures Printable("; no TargetPci emitted")
  {
  }

  lemma RawDisplayLine(d: Display)
    ensures Comment("# PCI location unavailable: segment=0x" + Hex(d.rawSegment, 16) + " bus=0x" + Hex(d.rawBus, 16) +
         " device=0x" + Hex(d.rawDevice, 16) + " function=0x" + Hex(d.rawFunction, 16) + "; no TargetPci emitted", 153)
  {
    hide Hex, Comment, Printable;
    RawLabels();
    HexPrintable(d.rawSegment, 16);
    HexPrintable(d.rawBus, 16);
    HexPrintable(d.rawDevice, 16);
    HexPrintable(d.rawFunction, 16);
    var s := "# PCI location unavailable: segment=0x";
    CommentConcat(s, Hex(d.rawSegment, 16), 38, 16);
    s := s + Hex(d.rawSegment, 16);
    CommentConcat(s, " bus=0x", 54, 7);
    s := s + " bus=0x";
    CommentConcat(s, Hex(d.rawBus, 16), 61, 16);
    s := s + Hex(d.rawBus, 16);
    CommentConcat(s, " device=0x", 77, 10);
    s := s + " device=0x";
    CommentConcat(s, Hex(d.rawDevice, 16), 87, 16);
    s := s + Hex(d.rawDevice, 16);
    CommentConcat(s, " function=0x", 103, 12);
    s := s + " function=0x";
    CommentConcat(s, Hex(d.rawFunction, 16), 115, 16);
    s := s + Hex(d.rawFunction, 16);
    CommentConcat(s, "; no TargetPci emitted", 131, 22);
  }

  lemma MarkedLine(key: string, value: string, a: nat, b: nat)
    requires Printable(key) && |key| <= a && Printable(value) && |value| <= b
    ensures Comment(Mark(false) + key + value, 2 + a + b)
  {
    CommentConcat("# ", key, 2, a);
    CommentConcat("# " + key, value, 2 + a, b);
  }

  lemma DisplayAddress(d: Display, active: bool)
    ensures !active || !d.addressValid ==> Comment(DisplayAddressLine(d, active), 153)
    ensures |DisplayAddressLine(d, active)| <= 153
  {
    hide Hex, Bdf;
    BdfPrintable(d.address);
    if d.addressValid {
      if !active {
        MarkedLine("TargetPci=", Bdf(d.address), 10, 12);
      }
    } else {
      RawDisplayLine(d);
    }
  }

  lemma RawStorageLabels()
    ensures Comment("# Invalid BBS PCI location: bus=0x", 34)
    ensures Printable(" device=0x") && Printable(" function=0x")
  {
  }

  lemma RawStorageLine(s: Storage)
    ensures Comment("# Invalid BBS PCI location: bus=0x" + Hex(s.rawBus, 8) + " device=0x" + Hex(s.rawDevice, 8) +
                    " function=0x" + Hex(s.rawFunction, 8), 80)
  {
    hide Hex, Comment, Printable;
    RawStorageLabels();
    HexPrintable(s.rawBus, 8);
    HexPrintable(s.rawDevice, 8);
    HexPrintable(s.rawFunction, 8);
    var t := "# Invalid BBS PCI location: bus=0x";
    CommentConcat(t, Hex(s.rawBus, 8), 34, 8);
    t := t + Hex(s.rawBus, 8);
    CommentConcat(t, " device=0x", 42, 10);
    t := t + " device=0x";
    CommentConcat(t, Hex(s.rawDevice, 8), 52, 8);
    t := t + Hex(s.rawDevice, 8);
    CommentConcat(t, " function=0x", 60, 12);
    t := t + " function=0x";
    CommentConcat(t, Hex(s.rawFunction, 8), 72, 8);
  }

  lemma StorageAddress(s: Storage, active: bool)
    ensures !active || !s.addressValid ==> Comment(StorageAddressLine(s, active), 80)
    ensures |StorageAddressLine(s, active)| <= 80
  {
    hide Hex, Bdf;
    BdfPrintable(s.address);
    if s.addressValid {
      if !active {
        MarkedLine("TargetControllerPci=", Bdf(s.address), 20, 12);
      }
    } else {
      RawStorageLine(s);
    }
  }

  lemma DiskTextShape(description: string)
    requires |description| == STRING_BYTES
    ensures Printable(DiskText(description)) && |DiskText(description)| <= 143
  {
    hide Encode, CommentText, CString, Representable;
    if Representable(CString(description)) {
      EncodeShape(CString(description));
    }
  }

  lemma DiskLine(s: Storage, active: bool)
    requires s.Valid()
    ensures !active ==> Comment(DiskLineText(s, active), 166)
    ensures |DiskLineText(s, active)| <= 166
  {
    DiskTextShape(s.description);
    hide DiskText;
    if !active {
      MarkedLine("TargetBbsDescription=", DiskText(s.description), 21, 143);
    }
  }

  lemma StorageTextLines(s: Storage)
    requires s.Valid()
    ensures Comment("# Manufacturer: " + CommentText(s.manufacturer), 159)
    ensures Comment("# Model: " + CommentText(s.description), 152)
    ensures Comment("# BBS index: " + Dec(s.bbsIndex), 33)
    ensures Comment("# Controller type: " + (if s.usb then "USB" else "non-USB"), 26)
  {
    DecLengths(s.bbsIndex);
    hide Dec, CommentText;
    CommentConcat("# Manufacturer: ", CommentText(s.manufacturer), 16, 143);
    CommentConcat("# Model: ", CommentText(s.description), 9, 143);
    CommentConcat("# BBS index: ", Dec(s.bbsIndex), 13, 20);
    CommentConcat("# Controller type: ", if s.usb then "USB" else "non-USB", 19, 7);
  }

  // ----------------------------------------------------------------- inert lines

  /** A line without effect: blank or a comment. */
  ghost predicate Inert(line: string) {
    line == "" || Comment(line, MAX_LINE)
  }

  lemma InertLine(st: Result<State>, line: string)
    requires Inert(line)
    ensures LineOk(line) && ParseLine(st, line) == st
  {
    if line == "" {
      EmptyLine(st);
    } else {
      CommentLine(st, line);
    }
  }

  function Fold(st: Result<State>, lines: seq<string>): Result<State> {
    if lines == [] then st else ParseLine(Fold(st, lines[..|lines| - 1]), lines[|lines| - 1])
  }

  lemma {:induction false} FoldConcat(st: Result<State>, a: seq<string>, b: seq<string>)
    ensures Fold(st, a + b) == Fold(Fold(st, a), b)
  {
    hide ParseLine;
    if b == [] {
      assert a + b == a;
    } else {
      assert (a + b)[..|a + b| - 1] == a + b[..|b| - 1];
      FoldConcat(st, a, b[..|b| - 1]);
    }
  }

  lemma {:induction false} FoldInert(st: Result<State>, lines: seq<string>)
    requires forall i :: 0 <= i < |lines| ==> Inert(lines[i])
    ensures Fold(st, lines) == st
  {
    hide ParseLine, Inert;
    if lines != [] {
      FoldInert(st, lines[..|lines| - 1]);
      InertLine(st, lines[|lines| - 1]);
    }
  }

  /** A text of terminated lines means the fold of its lines. */
  lemma {:induction false} JoinMeaning(lines: seq<string>)
    requires forall i :: 0 <= i < |lines| ==> Unbroken(lines[i])
    ensures Meaning(Join(lines)) == Fold(Ok(INITIAL), lines)
    ensures AtBoundary(Join(lines))
  {
    hide ParseLine, Meaning, Unbroken;
    if lines == [] {
      MeaningOfNothing();
    } else {
      var init, last := lines[..|lines| - 1], lines[|lines| - 1];
      JoinMeaning(init);
      CrLfText();
      AppendLine(Join(init), last, CRLF);
    }
  }

  lemma MeaningOfNothing()
    ensures Meaning("") == Ok(INITIAL)
  {
    BoundaryScan("");
  }

  lemma LineOkUnbroken(line: string)
    requires LineOk(line)
    ensures Unbroken(line)
  {
  }

  // ------------------------------------------------------------------ the blocks

  lemma {:induction false} JoinPush(lines: seq<string>, last: string)
    ensures |Join(lines + [last])| == |Join(lines)| + |last| + 2
  {
    assert (lines + [last])[..|lines|] == lines;
  }

  /** One display block: its size, and that only an active address has effect. */
  lemma DisplayBlock(d: Display, index: nat, active: bool)
    requires index < MAX_DISPLAYS
    ensures var ls := DisplayLines(d, index, active);
      && |ls| == 10
      && (forall i :: 0 <= i < 10 && i != 8 ==> Inert(ls[i]))
      && (!active || !d.addressValid ==> Inert(ls[8]))
      && ls[8] == DisplayAddressLine(d, active)
      && |ls[0]| <= 33 && |ls[1]| <= 45 && |ls[2]| <= 50 && |ls[3]| <= 68 && |ls[4]| <= 25
      && |ls[5]| <= 27 && |ls[6]| <= 31 && |ls[7]| <= 34 && |ls[8]| <= 153 && |ls[9]| == 0
  {
    DisplayName();
    hide Comment, Printable, DisplayAddressLine, Inert, HeadText, IdentityText, GopText, OwnerText;
    hide ExposedText, AcceptedText, DiscoveredText, ValidatedText;
    var ls := DisplayLines(d, index, active);
    HeadLine("# Display candidate ", index, active);
    CommentFacts(ls[0], 33);
    IdentityLine(d);
    CommentFacts(ls[1], 45);
    GopLine(d);
    CommentFacts(ls[2], 50);
    OwnerLine(d);
    CommentFacts(ls[3], 68);
    RomLines(d);
    CommentFacts(ls[4], 25);
    CommentFacts(ls[5], 27);
    PathLines(d);
    CommentFacts(ls[6], 31);
    CommentFacts(ls[7], 34);
    DisplayAddress(d, active);
    if !active || !d.addressValid {
      CommentFacts(ls[8], 153);
    }
    EmptyIsInert();
  }

  lemma DisplayName()
    ensures Comment("# Display candidate ", 20)
  {
  }

  lemma EmptyIsInert()
    ensures Inert("")
  {
  }

  lemma CommentFacts(line: string, bound: nat)
    requires Comment(line, bound) && bound <= MAX_LINE
    ensures Inert(line) && |line| <= bound
  {
  }

  lemma StorageBlock(s: Storage, index: nat, active: bool)
    requires index < MAX_STORAGE && s.Valid()
    ensures var ls := StorageLines(s, index, active);
      && |ls| == 8
      && (forall i :: 0 <= i < 8 && i != 5 && i != 6 ==> Inert(ls[i]))
      && (!active || !s.addressValid ==> Inert(ls[5]))
      && (!active ==> Inert(ls[6]))
      && ls[5] == StorageAddressLine(s, active)
      && ls[6] == DiskLineText(s, active)
      && |ls[0]| <= 33 && |ls[1]| <= 159 && |ls[2]| <= 152 && |ls[3]| <= 33
      && |ls[4]| <= 26 && |ls[5]| <= 80 && |ls[6]| <= 166 && |ls[7]| == 0
  {
    StorageName();
    hide Comment, Printable, Dec, StorageAddressLine, DiskLineText, CommentText, HeadText, Inert;
    var ls := StorageLines(s, index, active);
    HeadLine("# Storage candidate ", index, active);
    CommentFacts(ls[0], 33);
    StorageTextLines(s);
    CommentFacts(ls[1], 159);
    CommentFacts(ls[2], 152);
    CommentFacts(ls[3], 33);
    CommentFacts(ls[4], 26);
    StorageAddress(s, active);
    if !active || !s.addressValid {
      CommentFacts(ls[5], 80);
    }
    DiskLine(s, active);
    if !active {
      CommentFacts(ls[6], 166);
    }
    EmptyIsInert();
  }

  lemma StorageName()
    ensures Comment("# Storage candidate ", 20)
  {
  }

  // -------------------------------------------------------------------- the size

  lemma DisplayBlockSize(d: Display, index: nat, active: bool)
    requires index < MAX_DISPLAYS
    ensures |Join(DisplayLines(d, index, active))| <= 486
  {
    DisplayBlock(d, index, active);
    var ls := DisplayLines(d, index, active);
    hide Join, Inert, DisplayLines, DisplayAddressLine;
    JoinTaken(ls, 10);
    assert ls[..10] == ls;
  }

  lemma StorageBlockSize(s: Storage, index: nat, active: bool)
    requires index < MAX_STORAGE && s.Valid()
    ensures |Join(StorageLines(s, index, active))| <= 665
  {
    StorageBlock(s, index, active);
    var ls := StorageLines(s, index, active);
    hide Join, Inert, StorageLines, StorageAddressLine, DiskLineText;
    JoinTaken(ls, 8);
    assert ls[..8] == ls;
  }

  /** The size of a joined prefix, in steps of one line. */
  lemma JoinTaken(lines: seq<string>, k: nat)
    requires k <= |lines|
    ensures forall i :: 0 <= i < k ==> |Join(lines[..i + 1])| == |Join(lines[..i])| + |lines[i]| + 2
    ensures |Join(lines[..0])| == 0
  {
    forall i | 0 <= i < k ensures |Join(lines[..i + 1])| == |Join(lines[..i])| + |lines[i]| + 2 {
      assert lines[..i + 1] == lines[..i] + [lines[i]];
      JoinPush(lines[..i], lines[i]);
    }
  }

  lemma {:induction false} DisplayBlocksSize(displays: seq<Display>, sel: Option<nat>, k: nat)
    requires k <= |displays| <= MAX_DISPLAYS
    ensures |Join(DisplayBlocks(displays, sel, k))| <= 486 * k
  {
    hide Join, DisplayLines;
    if k == 0 {
      JoinTaken([], 0);
      assert [][..0] == DisplayBlocks(displays, sel, 0);
    } else {
      DisplayBlocksSize(displays, sel, k - 1);
      DisplayBlockSize(displays[k - 1], k - 1, sel == Some(k - 1));
      JoinConcat(DisplayBlocks(displays, sel, k - 1), DisplayLines(displays[k - 1], k - 1, sel == Some(k - 1)));
    }
  }

  lemma {:induction false} StorageBlocksSize(storage: seq<Storage>, sel: Option<nat>, k: nat)
    requires k <= |storage| <= MAX_STORAGE && (forall s :: s in storage ==> s.Valid())
    ensures |Join(StorageBlocks(storage, sel, k))| <= 665 * k
  {
    hide Join, StorageLines;
    if k == 0 {
      JoinTaken([], 0);
      assert [][..0] == StorageBlocks(storage, sel, 0);
    } else {
      StorageBlocksSize(storage, sel, k - 1);
      StorageBlockSize(storage[k - 1], k - 1, sel == Some(k - 1));
      JoinConcat(StorageBlocks(storage, sel, k - 1), StorageLines(storage[k - 1], k - 1, sel == Some(k - 1)));
    }
  }

  lemma {:induction false} JoinUniform(lines: seq<string>, bound: nat)
    requires forall i :: 0 <= i < |lines| ==> |lines[i]| <= bound
    ensures |Join(lines)| <= |lines| * (bound + 2)
  {
    if lines != [] {
      var init := lines[..|lines| - 1];
      JoinUniform(init, bound);
      assert (|init| + 1) * (bound + 2) == |init| * (bound + 2) + (bound + 2);
    }
  }

  lemma GeneratedLine()
    ensures Comment(GENERATED_LINE, 63)
  {
    CommentConcat("# Generated by Native CSM VGA ", "Selector 1.2 read-only discovery.", 30, 33);
  }

  lemma SelectedLine()
    ensures Comment(SELECTED_LINE, 59)
  {
    CommentConcat("# One display and one storage ", "candidate are selected below.", 30, 29);
  }

  lemma AnotherLine()
    ensures Comment(ANOTHER_LINE, 61) && Comment(UNCOMMENT_LINE, 32)
  {
    CommentConcat("# To select another candidate, ", "comment the active setting and", 31, 30);
  }

  lemma ProbeOnlyLine()
    ensures Comment(PROBE_ONLY_LINE, 63)
  {
    CommentConcat("# This Probe-only result is ", "not boot-ready because at least one", 28, 35);
  }

  lemma CategoryLine()
    ensures Comment(CATEGORY_LINE, 57)
  {
    CommentConcat("# candidate category has no ", "eligible automatic selection.", 28, 29);
  }

  lemma CommentsShape(complete: bool)
    ensures |Comments(complete)| <= 5
    ensures forall i :: 0 <= i < |Comments(complete)| ==> Inert(Comments(complete)[i]) && |Comments(complete)[i]| <= 64
  {
    GeneratedLine();
    SelectedLine();
    AnotherLine();
    ProbeOnlyLine();
    CategoryLine();
    hide Printable;
  }

  lemma FixedShape()
    ensures forall i :: 0 <= i < |FIXED_LINES| ==> |FIXED_LINES[i]| <= 19
    ensures forall i :: 0 <= i < |ENDPOINT_LINES| ==> |ENDPOINT_LINES[i]| <= 19
    ensures |FIXED_LINES| == 7 && |ENDPOINT_LINES| == 6
  {
  }

  /** Whatever the candidates hold, the formatted text fits its buffer. */
  lemma FormattedTextFits(displays: seq<Display>, sd: Option<nat>, storage: seq<Storage>, ss: Option<nat>)
    requires |displays| <= MAX_DISPLAYS && |storage| <= MAX_STORAGE
    requires forall s :: s in storage ==> s.Valid()
    ensures |Join(IniLinesOf(displays, sd, storage, ss))| < INI_BYTES
  {
    var complete := sd.Some? && ss.Some?;
    CommentsShape(complete);
    FixedShape();
    JoinUniform(Comments(complete), 64);
    JoinUniform(FIXED_LINES, 19);
    JoinUniform(ENDPOINT_LINES, 19);
    DisplayBlocksSize(displays, Active(complete, sd), |displays|);
    StorageBlocksSize(storage, Active(complete, ss), |storage|);
    JoinFive(Comments(complete), FIXED_LINES, DisplayBlocks(displays, Active(complete, sd), |displays|),
             ENDPOINT_LINES, StorageBlocks(storage, Active(complete, ss), |storage|));
    hide Join, Comments, DisplayBlocks, StorageBlocks, Inert;
  }

  lemma JoinFive(a: seq<string>, b: seq<string>, c: seq<string>, d: seq<string>, e: seq<string>)
    ensures |Join(a + b + c + d + e)| == |Join(a)| + |Join(b)| + |Join(c)| + |Join(d)| + |Join(e)|
  {
    hide Join;
    JoinConcat(a + b + c + d, e);
    JoinConcat(a + b + c, d);
    JoinConcat(a + b, c);
    JoinConcat(a, b);
  }

  // ----------------------------------------------------------------- the meaning

  function Entered(st: State, section: Section): State {
    st.(section := section, seen := st.seen + {section})
  }

  function WithSettings(st: State, settings: Settings): State {
    st.(config := st.config.(settings := settings))
  }

  /** The settings of every generated text. */
  const GENERATED_MARKER: MarkerSettings := DEFAULT_MARKER.(seen := DEFAULT_MARKER.seen + {0})
  const MARKER_SETTINGS: Settings := DEFAULT_SETTINGS.(marker := GENERATED_MARKER)
  const VIDEO_SETTINGS: Settings := MARKER_SETTINGS.(probe := Some(false))
  const GENERATED_SETTINGS: Settings := VIDEO_SETTINGS.(io := Some(On), memory := Some(On), busMaster := Some(Ignore))

  const IN_MARKER: State := Entered(INITIAL, MarkerSection)
  const AFTER_MARKER: State := WithSettings(IN_MARKER, MARKER_SETTINGS)
  const IN_BEHAVIOR: State := Entered(AFTER_MARKER, Behavior)
  const AFTER_BEHAVIOR: State := WithSettings(IN_BEHAVIOR, VIDEO_SETTINGS)
  const IN_VIDEO: State := Entered(AFTER_BEHAVIOR, Video)

  lemma FoldPush(st: Result<State>, lines: seq<string>, last: string)
    ensures Fold(st, lines + [last]) == ParseLine(Fold(st, lines), last)
  {
    hide ParseLine;
    assert (lines + [last])[..|lines|] == lines;
  }

  lemma HeaderStep(st: Result<State>, lines: seq<string>, now: State, line: string, section: Section)
    requires Fold(st, lines) == Ok(now) && LineOk(line) && SectionOf(line) == Some(section) && section !in now.seen
    ensures Fold(st, lines + [line]) == Ok(Entered(now, section))
  {
    HeaderLine(now, line);
    hide ParseLine, LineOk, SectionOf;
    FoldPush(st, lines, line);
  }

  lemma PairStep(st: Result<State>, lines: seq<string>, now: State, key: string, value: string, c: Config)
    requires Fold(st, lines) == Ok(now) && now.section != NoSection
    requires KeyShape(key) && Tight(value) && '=' !in value
    requires Printable(key) && Printable(value) && |key| + 1 + |value| <= MAX_LINE
    requires SetKeyValue(now.config, now.section, key, value) == Ok(c)
    ensures Fold(st, lines + [key + "=" + value]) == Ok(now.(config := c))
  {
    PairLine(now, key, value);
    hide ParseLine, SetKeyValue, KeyShape, Printable;
    FoldPush(st, lines, key + "=" + value);
  }

  lemma InertStep(st: Result<State>, lines: seq<string>, line: string)
    requires Inert(line)
    ensures Fold(st, lines + [line]) == Fold(st, lines)
  {
    InertLine(Fold(st, lines), line);
    hide ParseLine, Inert;
    FoldPush(st, lines, line);
  }

  lemma FoldNothing(st: Result<State>)
    ensures Fold(st, []) == st
  {
  }

  // Single settings of the generated text.

  lemma EnabledFalse()
    ensures KeyShape("Enabled") && Printable("Enabled") && Tight("false") && '=' !in "false" && Printable("false")
    ensures SetKeyValue(IN_MARKER.config, MarkerSection, "Enabled", "false") == Ok(AFTER_MARKER.config)
  {
  }

  lemma ProbeFalse()
    ensures KeyShape("Probe") && Printable("Probe") && Tight("false") && '=' !in "false" && Printable("false")
    ensures SetKeyValue(IN_BEHAVIOR.config, Behavior, "Probe", "false") == Ok(AFTER_BEHAVIOR.config)
  {
  }

  lemma Headers()
    ensures SectionOf("[Marker]") == Some(MarkerSection) && SectionOf("[Behavior]") == Some(Behavior)
    ensures SectionOf("[Video]") == Some(Video) && SectionOf("[Endpoint]") == Some(Endpoint)
    ensures SectionOf("[Boot]") == Some(Boot)
    ensures LineOk("[Marker]") && LineOk("[Behavior]") && LineOk("[Video]") && LineOk("[Endpoint]") && LineOk("[Boot]")
  {
  }

  lemma FixedMeaning()
    ensures Fold(Ok(INITIAL), FIXED_LINES) == Ok(IN_VIDEO)
  {
    var st: Result<State> := Ok(INITIAL);
    Headers();
    EnabledFalse();
    ProbeFalse();
    EmptyIsInert();
    hide Fold, SetKeyValue, SectionOf, LineOk, KeyShape, Printable, Inert, Tight;
    FoldNothing(st);
    var ls: seq<string> := [];
    HeaderStep(st, ls, INITIAL, "[Marker]", MarkerSection);
    ls := ls + ["[Marker]"];
    PairStep(st, ls, IN_MARKER, "Enabled", "false", AFTER_MARKER.config);
    ls := ls + ["Enabled" + "=" + "false"];
    InertStep(st, ls, "");
    ls := ls + [""];
    HeaderStep(st, ls, AFTER_MARKER, "[Behavior]", Behavior);
    ls := ls + ["[Behavior]"];
    PairStep(st, ls, IN_BEHAVIOR, "Probe", "false", AFTER_BEHAVIOR.config);
    ls := ls + ["Probe" + "=" + "false"];
    InertStep(st, ls, "");
    ls := ls + [""];
    HeaderStep(st, ls, AFTER_BEHAVIOR, "[Video]", Video);
    ls := ls + ["[Video]"];
    assert "Enabled" + "=" + "false" == "Enabled=false";
    assert "Probe" + "=" + "false" == "Probe=false";
    assert ls == FIXED_LINES;
  }

  // The display blocks.

  /** The state after the first k displays; only the active one has effect. */
  function AfterDisplays(displays: seq<Display>, sel: Option<nat>, k: nat): State
    requires k <= |displays|
  {
    if sel.Some? && sel.value < k
    then IN_VIDEO.(config := IN_VIDEO.config.(targetPci := Some(displays[sel.value].address))) else IN_VIDEO
  }

  lemma ActiveDisplay(d: Display, index: nat)
    requires d.addressValid && ValidAddress(d.address)
    ensures DisplayAddressLine(d, true) == TARGET_PCI + "=" + Bdf(d.address)
    ensures KeyShape(TARGET_PCI) && Printable(TARGET_PCI) && |TARGET_PCI| == 9
    ensures Tight(Bdf(d.address)) && '=' !in Bdf(d.address) && Printable(Bdf(d.address)) && |Bdf(d.address)| == 12
    ensures SetKeyValue(IN_VIDEO.config, Video, TARGET_PCI, Bdf(d.address)) ==
            Ok(IN_VIDEO.config.(targetPci := Some(d.address)))
  {
    BdfIsFormat(d.address);
    AddressRoundTrip(d.address, true);
    hide Bdf, FormatAddress, ParseAddress;
    assert "" + "TargetPci=" + Bdf(d.address) == "TargetPci" + "=" + Bdf(d.address);
  }

  /** A pair line the parser accepts in a state, with the configuration it leaves. */
  ghost predicate Accepted(now: State, key: string, value: string, c: Config) {
    && now.section != NoSection && KeyShape(key) && Tight(value) && '=' !in value
    && Printable(key) && Printable(value) && |key| + 1 + |value| <= MAX_LINE
    && SetKeyValue(now.config, now.section, key, value) == Ok(c)
  }

  lemma AcceptedStep(st: Result<State>, lines: seq<string>, now: State, key: string, value: string, c: Config)
    requires Fold(st, lines) == Ok(now) && Accepted(now, key, value, c)
    ensures Fold(st, lines + [key + "=" + value]) == Ok(now.(config := c))
  {
    hide Fold, SetKeyValue, KeyShape, Printable, Tight;
    PairStep(st, lines, now, key, value, c);
  }

  /** Nine inert lines around the one setting of an active display block. */
  lemma OneSetting(now: State, ls: seq<string>, key: string, value: string, c: Config)
    requires |ls| == 10 && (forall i :: 0 <= i < 10 && i != 8 ==> Inert(ls[i]))
    requires ls[8] == key + "=" + value && Accepted(now, key, value, c)
    ensures Fold(Ok(now), ls) == Ok(now.(config := c))
  {
    hide Fold, Inert, Accepted;
    var st: Result<State> := Ok(now);
    FoldInert(st, ls[..8]);
    AcceptedStep(st, ls[..8], now, key, value, c);
    assert ls[..8] + [ls[8]] == ls[..9];
    InertStep(st, ls[..9], ls[9]);
    assert ls[..9] + [ls[9]] == ls;
  }

  lemma DisplayMeaning(st: Result<State>, d: Display, index: nat, active: bool)
    requires index < MAX_DISPLAYS
    requires active ==> st == Ok(IN_VIDEO) && d.addressValid && ValidAddress(d.address)
    ensures Fold(st, DisplayLines(d, index, active)) ==
            if active then Ok(IN_VIDEO.(config := IN_VIDEO.config.(targetPci := Some(d.address)))) else st
  {
    DisplayBlock(d, index, active);
    if !active {
      hide DisplayLines, Fold, Inert, DisplayAddressLine;
      FoldInert(st, DisplayLines(d, index, active));
    } else {
      ActiveDisplay(d, index);
      hide DisplayLines, Fold, Inert, DisplayAddressLine, KeyShape, Printable, Tight, SetKeyValue, Bdf;
      OneSetting(IN_VIDEO, DisplayLines(d, index, true), TARGET_PCI, Bdf(d.address),
                 IN_VIDEO.config.(targetPci := Some(d.address)));
    }
  }

  lemma {:induction false} DisplaysMeaning(displays: seq<Display>, sel: Option<nat>, k: nat)
    requires k <= |displays| <= MAX_DISPLAYS
    requires sel.Some? ==> sel.value < |displays| && displays[sel.value].addressValid &&
                           ValidAddress(displays[sel.value].address)
    ensures Fold(Ok(IN_VIDEO), DisplayBlocks(displays, sel, k)) == Ok(AfterDisplays(displays, sel, k))
  {
    hide DisplayLines, Fold, ValidAddress;
    if k == 0 {
      FoldNothing(Ok(IN_VIDEO));
    } else {
      var active := sel == Some(k - 1);
      DisplaysMeaning(displays, sel, k - 1);
      FoldConcat(Ok(IN_VIDEO), DisplayBlocks(displays, sel, k - 1), DisplayLines(displays[k - 1], k - 1, active));
      DisplayMeaning(Ok(AfterDisplays(displays, sel, k - 1)), displays[k - 1], k - 1, active);
    }
  }

  // The endpoint policies.

  const IO_SETTINGS: Settings := VIDEO_SETTINGS.(io := Some(On))
  const MEMORY_SETTINGS: Settings := IO_SETTINGS.(memory := Some(On))

  lemma IoOn(c: Config)
    requires c.settings == VIDEO_SETTINGS
    ensures KeyShape("IoDecoding") && Printable("IoDecoding") && Tight("On") && '=' !in "On" && Printable("On")
    ensures SetKeyValue(c, Endpoint, "IoDecoding", "On") == Ok(c.(settings := IO_SETTINGS))
  {
  }

  lemma MemoryOn(c: Config)
    requires c.settings == IO_SETTINGS
    ensures KeyShape("MemoryDecoding") && Printable("MemoryDecoding") && Tight("On") && '=' !in "On" && Printable("On")
    ensures SetKeyValue(c, Endpoint, "MemoryDecoding", "On") == Ok(c.(settings := MEMORY_SETTINGS))
  {
  }

  lemma BusMasterIgnore(c: Config)
    requires c.settings == MEMORY_SETTINGS
    ensures KeyShape("BusMastering") && Printable("BusMastering")
    ensures Tight("Ignore") && '=' !in "Ignore" && Printable("Ignore")
    ensures SetKeyValue(c, Endpoint, "BusMastering", "Ignore") == Ok(c.(settings := GENERATED_SETTINGS))
  {
  }

  function BootEntered(st: State): State {
    Entered(WithSettings(Entered(st, Endpoint), GENERATED_SETTINGS), Boot)
  }

  /** The three endpoint policies, one setting after another. */
  lemma PoliciesMeaning(st: Result<State>, now: State, ls: seq<string>)
    requires Fold(st, ls) == Ok(now) && now.section == Endpoint && now.config.settings == VIDEO_SETTINGS
    ensures Fold(st, ls + ["IoDecoding" + "=" + "On"] + ["MemoryDecoding" + "=" + "On"] +
                     ["BusMastering" + "=" + "Ignore"]) == Ok(WithSettings(now, GENERATED_SETTINGS))
  {
    var s1, s2 := WithSettings(now, IO_SETTINGS), WithSettings(now, MEMORY_SETTINGS);
    IoOn(now.config);
    MemoryOn(s1.config);
    BusMasterIgnore(s2.config);
    hide Fold, SetKeyValue, KeyShape, Printable, Tight;
    PairStep(st, ls, now, "IoDecoding", "On", s1.config);
    PairStep(st, ls + ["IoDecoding" + "=" + "On"], s1, "MemoryDecoding", "On", s2.config);
    PairStep(st, ls + ["IoDecoding" + "=" + "On"] + ["MemoryDecoding" + "=" + "On"], s2, "BusMastering", "Ignore",
             WithSettings(now, GENERATED_SETTINGS).config);
  }

  lemma EndpointMeaning(start: State)
    requires start.config.settings == VIDEO_SETTINGS && Endpoint !in start.seen && Boot !in start.seen
    ensures Fold(Ok(start), ENDPOINT_LINES) == Ok(BootEntered(start))
  {
    var st: Result<State> := Ok(start);
    var s0 := Entered(start, Endpoint);
    Headers();
    EmptyIsInert();
    hide Fold, SectionOf, LineOk, Inert, IniParser.SetKeyValue;
    FoldNothing(st);
    HeaderStep(st, [], start, "[Endpoint]", Endpoint);
    var ls := [] + ["[Endpoint]"];
    PoliciesMeaning(st, s0, ls);
    ls := ls + ["IoDecoding" + "=" + "On"] + ["MemoryDecoding" + "=" + "On"] + ["BusMastering" + "=" + "Ignore"];
    InertStep(st, ls, "");
    ls := ls + [""];
    HeaderStep(st, ls, WithSettings(s0, GENERATED_SETTINGS), "[Boot]", Boot);
    EndpointText(ls + ["[Boot]"]);
  }

  lemma EndpointText(ls: seq<string>)
    requires ls == ["[Endpoint]", "IoDecoding" + "=" + "On", "MemoryDecoding" + "=" + "On",
                    "BusMastering" + "=" + "Ignore", "", "[Boot]"]
    ensures ls == ENDPOINT_LINES
  {
    assert "IoDecoding" + "=" + "On" == "IoDecoding=On";
    assert "MemoryDecoding" + "=" + "On" == "MemoryDecoding=On";
    assert "BusMastering" + "=" + "Ignore" == "BusMastering=Ignore";
  }

  // The storage blocks.

  ghost predicate ActiveStorage(s: Storage) {
    s.Valid() && s.addressValid && ValidAddress(s.address) && Representable(CString(s.description))
  }

  function WithStorage(st: State, s: Storage): State {
    st.(config := st.config.(controllerPci := Some(s.address), disk := Some(CString(s.description))))
  }

  lemma ActiveController(c: Config, s: Storage)
    requires ActiveStorage(s) && c.controllerPci.None?
    ensures StorageAddressLine(s, true) == CONTROLLER_PCI + "=" + Bdf(s.address)
    ensures KeyShape(CONTROLLER_PCI) && Printable(CONTROLLER_PCI) && |CONTROLLER_PCI| == 19
    ensures Tight(Bdf(s.address)) && '=' !in Bdf(s.address) && Printable(Bdf(s.address)) && |Bdf(s.address)| == 12
    ensures SetKeyValue(c, Boot, CONTROLLER_PCI, Bdf(s.address)) == Ok(c.(controllerPci := Some(s.address)))
  {
    BdfIsFormat(s.address);
    AddressRoundTrip(s.address, true);
    hide Bdf, FormatAddress, ParseAddress, Representable, CString;
    assert "" + "TargetControllerPci=" + Bdf(s.address) == "TargetControllerPci" + "=" + Bdf(s.address);
  }

  lemma DiskSetting(c: Config, value: string, name: string)
    requires DecodeDisk(value) == Some(name) && c.disk.None?
    ensures SetKeyValue(c, Boot, BBS_DESCRIPTION, value) == Ok(c.(disk := Some(name)))
  {
    hide DecodeDisk;
    assert |BBS_DESCRIPTION| == 20 && |CONTROLLER_PCI| == 19;
  }

  lemma ActiveDisk(c: Config, s: Storage)
    requires ActiveStorage(s) && c.disk.None?
    ensures var name := CString(s.description);
      && DiskLineText(s, true) == BBS_DESCRIPTION + "=" + Encode(name)
      && KeyShape(BBS_DESCRIPTION) && Printable(BBS_DESCRIPTION) && |BBS_DESCRIPTION| == 20
      && Tight(Encode(name)) && '=' !in Encode(name) && Printable(Encode(name)) && |Encode(name)| <= 130
      && SetKeyValue(c, Boot, BBS_DESCRIPTION, Encode(name)) == Ok(c.(disk := Some(name)))
  {
    var name := CString(s.description);
    DiskRoundTrip(name);
    EncodeShape(name);
    DiskSetting(c, Encode(name), name);
    DiskLineIs(s);
    DiskKey();
    hide Encode, DecodeDisk, CString, SetKeyValue, CommentText, KeyShape, Printable, Tight, DiskLineText, Representable;
  }

  lemma DiskKey()
    ensures KeyShape(BBS_DESCRIPTION) && Printable(BBS_DESCRIPTION) && |BBS_DESCRIPTION| == 20
  {
  }

  lemma DiskLineIs(s: Storage)
    requires Representable(CString(s.description))
    ensures DiskLineText(s, true) == BBS_DESCRIPTION + "=" + Encode(CString(s.description))
  {
    var value := Encode(CString(s.description));
    hide Encode, CString, CommentText, Representable;
    assert DiskLineText(s, true) == "" + "TargetBbsDescription=" + value;
    assert "TargetBbsDescription=" == BBS_DESCRIPTION + "=";
  }

  /** Six inert lines around the two settings of an active storage block. */
  lemma TwoSettings(now: State, ls: seq<string>, k1: string, v1: string, c1: Config, k2: string, v2: string, c2: Config)
    requires |ls| == 8 && (forall i :: 0 <= i < 8 && i != 5 && i != 6 ==> Inert(ls[i]))
    requires ls[5] == k1 + "=" + v1 && ls[6] == k2 + "=" + v2
    requires Accepted(now, k1, v1, c1) && Accepted(now.(config := c1), k2, v2, c2)
    ensures Fold(Ok(now), ls) == Ok(now.(config := c2))
  {
    hide Fold, Inert, Accepted;
    var st: Result<State> := Ok(now);
    FoldInert(st, ls[..5]);
    AcceptedStep(st, ls[..5], now, k1, v1, c1);
    assert ls[..5] + [ls[5]] == ls[..6];
    AcceptedStep(st, ls[..6], now.(config := c1), k2, v2, c2);
    assert ls[..6] + [ls[6]] == ls[..7];
    InertStep(st, ls[..7], ls[7]);
    assert ls[..7] + [ls[7]] == ls;
  }

  lemma StorageMeaning(st: Result<State>, s: Storage, index: nat, active: bool)
    requires index < MAX_STORAGE && s.Valid()
    requires active ==> && ActiveStorage(s) && st.Ok? && st.value.section == Boot
                        && st.value.config.controllerPci.None? && st.value.config.disk.None?
    ensures Fold(st, StorageLines(s, index, active)) == if active then Ok(WithStorage(st.value, s)) else st
  {
    StorageBlock(s, index, active);
    if !active {
      hide StorageLines, Fold, Inert, StorageAddressLine, DiskLineText, CString, Representable;
      FoldInert(st, StorageLines(s, index, active));
    } else {
      ActiveStorageMeaning(st.value, s, index);
    }
  }

  lemma ActiveStorageMeaning(now: State, s: Storage, index: nat)
    requires index < MAX_STORAGE && ActiveStorage(s) && now.section == Boot
    requires now.config.controllerPci.None? && now.config.disk.None?
    ensures Fold(Ok(now), StorageLines(s, index, true)) == Ok(WithStorage(now, s))
  {
    StorageBlock(s, index, true);
    var ls := StorageLines(s, index, true);
    var name := CString(s.description);
    var c := now.config.(controllerPci := Some(s.address));
    ActiveController(now.config, s);
    ActiveDisk(c, s);
    hide StorageLines, Fold, Inert, StorageAddressLine, DiskLineText, CString, Representable;
    hide KeyShape, Printable, Tight, SetKeyValue, Encode, Bdf;
    TwoSettings(now, ls, CONTROLLER_PCI, Bdf(s.address), c, BBS_DESCRIPTION, Encode(name), c.(disk := Some(name)));
  }

  function AfterStorage(start: State, storage: seq<Storage>, sel: Option<nat>, k: nat): State
    requires k <= |storage|
  {
    if sel.Some? && sel.value < k then WithStorage(start, storage[sel.value]) else start
  }

  lemma {:induction false} StoragesMeaning(start: State, storage: seq<Storage>, sel: Option<nat>, k: nat)
    requires k <= |storage| <= MAX_STORAGE && (forall s :: s in storage ==> s.Valid())
    requires sel.Some? ==> sel.value < |storage| && ActiveStorage(storage[sel.value])
    requires start.section == Boot && start.config.controllerPci.None? && start.config.disk.None?
    ensures Fold(Ok(start), StorageBlocks(storage, sel, k)) == Ok(AfterStorage(start, storage, sel, k))
  {
    hide StorageLines, ActiveStorage, CString, Fold;
    if k == 0 {
      FoldNothing(Ok(start));
    } else {
      var active := sel == Some(k - 1);
      StoragesMeaning(start, storage, sel, k - 1);
      FoldConcat(Ok(start), StorageBlocks(storage, sel, k - 1), StorageLines(storage[k - 1], k - 1, active));
      StorageMeaning(Ok(AfterStorage(start, storage, sel, k - 1)), storage[k - 1], k - 1, active);
    }
  }

  // The whole text.

  /** A fold that succeeds has seen only acceptable lines. */
  lemma {:induction false} FoldOkLines(st: Result<State>, lines: seq<string>)
    requires Fold(st, lines).Ok?
    ensures forall i :: 0 <= i < |lines| ==> Unbroken(lines[i])
  {
    if lines != [] {
      var init, last := lines[..|lines| - 1], lines[|lines| - 1];
      assert LineOk(last);
      LineOkUnbroken(last);
      hide ParseLine, Unbroken, LineOk;
      FoldOkLines(st, init);
      assert forall i :: 0 <= i < |init| ==> lines[i] == init[i];
    }
  }

  lemma CommentsMeaning(complete: bool)
    ensures Fold(Ok(INITIAL), Comments(complete)) == Ok(INITIAL)
  {
    CommentsShape(complete);
    hide Fold, Comments, Inert;
    FoldInert(Ok(INITIAL), Comments(complete));
  }

  lemma FoldFive(st: Result<State>, a: seq<string>, b: seq<string>, c: seq<string>, d: seq<string>, e: seq<string>)
    ensures Fold(st, a + b + c + d + e) == Fold(Fold(Fold(Fold(Fold(st, a), b), c), d), e)
  {
    hide Fold;
    FoldConcat(st, a + b + c + d, e);
    FoldConcat(st, a + b + c, d);
    FoldConcat(st, a + b, c);
    FoldConcat(st, a, b);
  }

  function FinalState(displays: seq<Display>, sd: Option<nat>, storage: seq<Storage>, ss: Option<nat>): State {
    AfterStorage(BootEntered(AfterDisplays(displays, sd, |displays|)), storage, ss, |storage|)
  }

  lemma VideoState(displays: seq<Display>, sd: Option<nat>)
    ensures var st := AfterDisplays(displays, sd, |displays|);
      && st.config.settings == VIDEO_SETTINGS && Endpoint !in st.seen && Boot !in st.seen
      && st.config.controllerPci.None? && st.config.disk.None?
  {
  }

  lemma LinesMeaning(displays: seq<Display>, sd: Option<nat>, storage: seq<Storage>, ss: Option<nat>)
    requires |displays| <= MAX_DISPLAYS && |storage| <= MAX_STORAGE && (forall s :: s in storage ==> s.Valid())
    requires sd.Some? ==>
      sd.value < |displays| && displays[sd.value].addressValid && ValidAddress(displays[sd.value].address)
    requires ss.Some? ==> ss.value < |storage| && ActiveStorage(storage[ss.value])
    requires sd.Some? == ss.Some?
    ensures Fold(Ok(INITIAL), IniLinesOf(displays, sd, storage, ss)) == Ok(FinalState(displays, sd, storage, ss))
  {
    var complete := sd.Some?;
    var video := AfterDisplays(displays, sd, |displays|);
    VideoState(displays, sd);
    CommentsMeaning(complete);
    FixedMeaning();
    DisplaysMeaning(displays, sd, |displays|);
    EndpointMeaning(video);
    assert BootEntered(video).section == Boot && BootEntered(video).config.controllerPci == video.config.controllerPci;
    assert BootEntered(video).config.disk == video.config.disk;
    StoragesMeaning(BootEntered(video), storage, ss, |storage|);
    hide Fold, Comments, DisplayBlocks, StorageBlocks, AfterDisplays, BootEntered, ActiveStorage, AfterStorage;
    FoldFive(Ok(INITIAL), Comments(complete), FIXED_LINES, DisplayBlocks(displays, sd, |displays|),
             ENDPOINT_LINES, StorageBlocks(storage, ss, |storage|));
  }

  /** An incomplete selection leaves every candidate commented out. */
  lemma IncompleteLines(displays: seq<Display>, sd: Option<nat>, storage: seq<Storage>, ss: Option<nat>)
    requires sd.None? || ss.None?
    ensures IniLinesOf(displays, sd, storage, ss) == IniLinesOf(displays, None, storage, None)
  {
    hide Comments, DisplayBlocks, StorageBlocks;
  }

  ghost predicate WellFormedCandidates(displays: seq<Display>, sd: Option<nat>, storage: seq<Storage>,
                                       ss: Option<nat>) {
    && ValidSelections(displays, sd, storage, ss)
    && (forall s :: s in storage ==> s.Valid())
    && (sd.Some? ==> ValidAddress(displays[sd.value].address))
    && (ss.Some? ==> ValidAddress(storage[ss.value].address))
  }

  /** What the generated text must parse to. */
  ghost function Selection(displays: seq<Display>, sd: Option<nat>, storage: seq<Storage>, ss: Option<nat>): Config
    requires ValidSelections(displays, sd, storage, ss)
  {
    if sd.Some? && ss.Some? then
      Config(Some(displays[sd.value].address), Some(storage[ss.value].address),
             Some(CString(storage[ss.value].description)), GENERATED_SETTINGS)
    else Config(None, None, None, GENERATED_SETTINGS)
  }

  lemma FinalConfig(displays: seq<Display>, sd: Option<nat>, storage: seq<Storage>, ss: Option<nat>)
    requires ValidSelections(displays, sd, storage, ss) && sd.Some? == ss.Some?
    ensures FinalState(displays, sd, storage, ss).config == Selection(displays, sd, storage, ss)
  {
    hide CString, Representable;
  }

  lemma ConcludeGenerated(st: State)
    requires st.config.settings == GENERATED_SETTINGS
    ensures Conclude(Ok(st)) ==
            if st.config.targetPci.Some? && st.config.targetPci == st.config.controllerPci
            then Err(CompromisedData) else Ok(st.config)
  {
    assert 0 in GENERATED_MARKER.seen && !GENERATED_MARKER.enabled;
    assert MarkerIsValid(GENERATED_MARKER);
    hide MarkerIsValid;
  }

  lemma GeneratedMeaning(displays: seq<Display>, sd: Option<nat>, storage: seq<Storage>, ss: Option<nat>)
    requires |displays| <= MAX_DISPLAYS && |storage| <= MAX_STORAGE && (forall s :: s in storage ==> s.Valid())
    requires sd.Some? ==>
      sd.value < |displays| && displays[sd.value].addressValid && ValidAddress(displays[sd.value].address)
    requires ss.Some? ==> ss.value < |storage| && ActiveStorage(storage[ss.value])
    requires sd.Some? == ss.Some?
    ensures Parse(Join(IniLinesOf(displays, sd, storage, ss))) == Conclude(Ok(FinalState(displays, sd, storage, ss)))
  {
    var lines := IniLinesOf(displays, sd, storage, ss);
    hide Representable, CString, ActiveStorage;
    LinesMeaning(displays, sd, storage, ss);
    assert |lines| > 0 by {
      hide DisplayBlocks, StorageBlocks, Comments;
    }
    hide IniLinesOf, FinalState, Fold, Conclude, Meaning, Unbroken;
    FoldOkLines(Ok(INITIAL), lines);
    JoinMeaning(lines);
  }

  lemma WithoutSelection(displays: seq<Display>, sd: Option<nat>, storage: seq<Storage>, ss: Option<nat>)
    requires WellFormedCandidates(displays, sd, storage, ss) && (sd.None? || ss.None?)
    ensures Parse(Join(IniLinesOf(displays, sd, storage, ss))) == Ok(Config(None, None, None, GENERATED_SETTINGS))
  {
    IncompleteLines(displays, sd, storage, ss);
    hide Fold, Join, Conclude, Meaning, DisplayLines, StorageLines, Comments;
    GeneratedMeaning(displays, None, storage, None);
    ConcludeGenerated(FinalState(displays, None, storage, None));
  }

  /** Format, then parse: the parser reads back exactly the selection, or no
      target at all when the selection is incomplete.  It refuses the text
      exactly when the two selected addresses are the same. */
  lemma FormatParseRoundTrip(displays: seq<Display>, sd: Option<nat>, storage: seq<Storage>, ss: Option<nat>)
    requires WellFormedCandidates(displays, sd, storage, ss)
    ensures Parse(Join(IniLinesOf(displays, sd, storage, ss))) ==
            if sd.Some? && ss.Some? && displays[sd.value].address == storage[ss.value].address
            then Err(CompromisedData) else Ok(Selection(displays, sd, storage, ss))
  {
    hide Parse, Join, IniLinesOf, Representable, CString, Conclude;
    if sd.None? || ss.None? {
      WithoutSelection(displays, sd, storage, ss);
    } else {
      FinalConfig(displays, sd, storage, ss);
      GeneratedMeaning(displays, sd, storage, ss);
      ConcludeGenerated(FinalState(displays, sd, storage, ss));
    }
  }
}
