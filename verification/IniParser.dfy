/** The strict configuration parser.

    The source scans bytes into a line buffer.  The specification first states
    the same byte machine as a fold, and then proves that a text means the fold
    of its lines. */
module IniParser {
  import opened Basics
  import opened IniText

  const MAX_LINE: nat := 255       // NCV_CONFIG_MAX_LINE_BYTES less the terminator
  const TEXT_BYTES: nat := 65      // NCV_CONFIG_TEXT_BYTES

  datatype ParseError = InvalidParameter | Unsupported | CompromisedData

  datatype Result<+T> = Ok(value: T) | Err(error: ParseError)

  datatype Section = NoSection | Profile | Video | Endpoint | Boot | Behavior | MarkerSection

  datatype Policy = Ignore | On | Off

  datatype MarkerSettings = MarkerSettings(seen: set<nat>, enabled: bool, partition: nat, signature: nat,
                           start: nat, sectors: nat, profile: string, path: string, header: string)

  /** Every setting except the three targets.  A setting that has not been seen
      is None; its default is in force. */
  datatype Settings = Settings(
    marker: MarkerSettings,
    name: Option<string>,
    expectedVendor: Option<nat>, expectedDevice: Option<nat>,
    expectedSubsystemVendor: Option<nat>, expectedSubsystemDevice: Option<nat>,
    legacyOption: Option<string>, exclude: Option<string>,
    io: Option<Policy>, memory: Option<Policy>, busMaster: Option<Policy>,
    probe: Option<bool>, verboseLog: Option<bool>, autoBoot: Option<bool>)

  datatype Config = Config(targetPci: Option<Address>, controllerPci: Option<Address>,
                           disk: Option<string>, settings: Settings)
  {
    /** The mode in force; the default is to probe. */
    predicate Probe() {
      settings.probe.None? || settings.probe.value
    }
  }

  const DEFAULT_MARKER: MarkerSettings := MarkerSettings({}, false, 0, 0, 0, 0, "", "", "NATIVE CSM BOOT PROFILE 1")

  const DEFAULT_SETTINGS: Settings :=
    Settings(DEFAULT_MARKER, None, None, None, None, None, None, None, None, None, None, None, None, None)

  const DEFAULTS: Config := Config(None, None, None, DEFAULT_SETTINGS)

  // ---------------------------------------------------------------- disk names

  /** A name that survives the format: printable, no '=', not blank, and short
      enough for its buffer. */
  ghost predicate Representable(v: string) {
    && 1 <= |v| < TEXT_BYTES
    && Printable(v)
    && '=' !in v
    && exists i :: 0 <= i < |v| && v[i] != ' '
  }

  predicate IsRepresentable(v: string)
    ensures IsRepresentable(v) <==> Representable(v)
  {
    && 1 <= |v| < TEXT_BYTES
    && (forall i :: 0 <= i < |v| ==> IsPrintable(v[i]))
    && '=' !in v
    && exists i :: 0 <= i < |v| && v[i] != ' '
  }

  predicate NeedsQuotes(v: string)
    requires v != ""
  {
    v[0] == ' ' || v[0] == '"' || v[|v| - 1] == ' '
  }

  function Escape(v: string): string {
    if v == "" then ""
    else (if v[0] == '"' || v[0] == '\\' then ['\\', v[0]] else [v[0]]) + Escape(v[1..])
  }

  function Encode(v: string): string
    requires v != ""
  {
    if NeedsQuotes(v) then "\"" + Escape(v) + "\"" else v
  }

  /** The escaped text up to its closing quote, which must end the value. */
  function Unescape(s: string): Option<string> {
    if s == "" then None
    else if s[0] == '"' then (if |s| == 1 then Some("") else None)
    else if s[0] == '\\' && (|s| < 2 || (s[1] != '\\' && s[1] != '"')) then None
    else
      var (c, rest) := if s[0] == '\\' then (s[1], s[2..]) else (s[0], s[1..]);
      if !IsPrintable(c) || c == '=' then None
      else match Unescape(rest)
        case None => None
        case Some(v) => if |v| + 1 >= TEXT_BYTES then None else Some([c] + v)
  }

  /** A bounded nonempty copy of printable text. */
  function CopyText(v: string): Option<string> {
    if 1 <= |v| < TEXT_BYTES && (forall i :: 0 <= i < |v| ==> IsPrintable(v[i])) then Some(v) else None
  }

  function DecodeDisk(value: string): Option<string> {
    if value == "" || value[0] != '"' then CopyText(value)
    else match Unescape(value[1..])
      case None => None
      case Some(v) => if IsRepresentable(v) then Some(v) else None
  }

  // -------------------------------------------------------------- single settings

  predicate ProfileChar(c: char) {
    'A' <= c <= 'Z' || '0' <= c <= '9' || c == '_'
  }

  predicate PathOk(v: string) {
    && 2 <= |v| <= 127 && v[0] == '\\'
    && (forall i :: 0 <= i < |v| ==> '!' <= v[i] <= '~' && v[i] != '/' && v[i] != ':')
    && (forall i :: 0 <= i < |v| - 1 ==> !(v[i] == '.' && v[i + 1] == '.'))
  }

  function MarkerKey(key: string): Option<nat> {
    if key == "Enabled" then Some(0)
    else if key == "PartitionNumber" then Some(1)
    else if key == "DiskSignature" then Some(2)
    else if key == "PartitionStart" then Some(3)
    else if key == "PartitionSectors" then Some(4)
    else if key == "Profile" then Some(5)
    else if key == "Path" then Some(6)
    else if key == "Header" then Some(7)
    else None
  }

  function SetMarker(m: MarkerSettings, key: string, value: string): Option<MarkerSettings> {
    match MarkerKey(key)
    case None => None
    case Some(k) =>
      if k in m.seen then None
      else
        var m' := m.(seen := m.seen + {k});
        if k == 0 then
          if value == "true" then Some(m'.(enabled := true))
          else if value == "false" then Some(m'.(enabled := false))
          else None
        else if k < 5 then
          match Number(value, if k < 3 then 0xFFFF_FFFF else 0xFFFF_FFFF_FFFF_FFFF)
          case None => None
          case Some(n) =>
            Some(if k == 1 then m'.(partition := n)
                 else if k == 2 then m'.(signature := n)
                 else if k == 3 then m'.(start := n)
                 else m'.(sectors := n))
        else if k == 5 then
          if 1 <= |value| <= 32 && (forall i :: 0 <= i < |value| ==> ProfileChar(value[i]))
          then Some(m'.(profile := value)) else None
        else if k == 6 then
          if PathOk(value) then Some(m'.(path := value)) else None
        else
          if 1 <= |value| <= 64 && (forall i :: 0 <= i < |value| ==> IsPrintable(value[i]))
          then Some(m'.(header := value)) else None
  }

  predicate MarkerIsValid(m: MarkerSettings) {
    || m.seen == {}
    || (0 in m.seen &&
        (!m.enabled ||
         (&& {0, 1, 2, 3, 4, 5, 6} <= m.seen
          && m.partition != 0 && m.signature != 0 && m.start != 0 && m.sectors != 0
          && m.start + m.sectors <= 0xFFFF_FFFF_FFFF_FFFF)))
  }

  function PolicyOf(value: string): Option<Policy> {
    if value == "On" then Some(On)
    else if value == "Off" then Some(Off)
    else if value == "Ignore" then Some(Ignore)
    else None
  }

  function BooleanOf(value: string): Option<bool> {
    if value == "true" then Some(true) else if value == "false" then Some(false) else None
  }

  /** A value for a setting that has not been seen yet. */
  predicate Fresh<T, U>(present: Option<T>, parsed: Option<U>) {
    present.None? && parsed.Some?
  }

  function SetVideo(s: Settings, key: string, value: string): Result<Settings> {
    if key == "ExpectedVendor" then
      if Fresh(s.expectedVendor, ParseHex16(value)) then Ok(s.(expectedVendor := ParseHex16(value)))
      else Err(CompromisedData)
    else if key == "ExpectedDevice" then
      if Fresh(s.expectedDevice, ParseHex16(value)) then Ok(s.(expectedDevice := ParseHex16(value)))
      else Err(CompromisedData)
    else if key == "ExpectedSubsystemVendor" then
      if Fresh(s.expectedSubsystemVendor, ParseHex16(value)) then Ok(s.(expectedSubsystemVendor := ParseHex16(value)))
      else Err(CompromisedData)
    else if key == "ExpectedSubsystemDevice" then
      if Fresh(s.expectedSubsystemDevice, ParseHex16(value)) then Ok(s.(expectedSubsystemDevice := ParseHex16(value)))
      else Err(CompromisedData)
    else Err(Unsupported)
  }

  function SetBoot(s: Settings, key: string, value: string): Result<Settings> {
    if key == "LegacyOptionDescription" then
      if Fresh(s.legacyOption, CopyText(value)) then Ok(s.(legacyOption := CopyText(value))) else Err(CompromisedData)
    else if key == "ExcludeDescription" then
      if Fresh(s.exclude, CopyText(value)) then Ok(s.(exclude := CopyText(value))) else Err(CompromisedData)
    else Err(Unsupported)
  }

  function SetEndpoint(s: Settings, key: string, value: string): Result<Settings> {
    if key == "IoDecoding" then
      if Fresh(s.io, PolicyOf(value)) then Ok(s.(io := PolicyOf(value))) else Err(CompromisedData)
    else if key == "MemoryDecoding" then
      if Fresh(s.memory, PolicyOf(value)) then Ok(s.(memory := PolicyOf(value))) else Err(CompromisedData)
    else if key == "BusMastering" then
      if Fresh(s.busMaster, PolicyOf(value)) then Ok(s.(busMaster := PolicyOf(value))) else Err(CompromisedData)
    else Err(Unsupported)
  }

  function SetBehavior(s: Settings, key: string, value: string): Result<Settings> {
    if key == "Probe" && Fresh(s.probe, BooleanOf(value)) then Ok(s.(probe := BooleanOf(value)))
    else if key == "VerboseLog" && Fresh(s.verboseLog, BooleanOf(value)) then Ok(s.(verboseLog := BooleanOf(value)))
    else if key == "AutoBoot" && Fresh(s.autoBoot, BooleanOf(value)) then Ok(s.(autoBoot := BooleanOf(value)))
    else Err(CompromisedData)
  }

  function SetSetting(s: Settings, section: Section, key: string, value: string): Result<Settings> {
    match section
    case NoSection => Err(CompromisedData)
    case MarkerSection =>
      (match SetMarker(s.marker, key, value)
       case None => Err(CompromisedData)
       case Some(m) => Ok(s.(marker := m)))
    case Profile =>
      if key == "Name" && Fresh(s.name, CopyText(value)) then Ok(s.(name := CopyText(value))) else Err(CompromisedData)
    case Video => SetVideo(s, key, value)
    case Boot => SetBoot(s, key, value)
    case Endpoint => SetEndpoint(s, key, value)
    case Behavior => SetBehavior(s, key, value)
  }

  const TARGET_PCI: string := "TargetPci"
  const CONTROLLER_PCI: string := "TargetControllerPci"
  const BBS_DESCRIPTION: string := "TargetBbsDescription"

  function SetKeyValue(c: Config, section: Section, key: string, value: string): Result<Config> {
    if section == Video && key == TARGET_PCI then
      if Fresh(c.targetPci, ParseAddress(value)) then Ok(c.(targetPci := ParseAddress(value))) else Err(CompromisedData)
    else if section == Boot && key == CONTROLLER_PCI then
      if Fresh(c.controllerPci, ParseAddress(value)) then Ok(c.(controllerPci := ParseAddress(value)))
      else Err(CompromisedData)
    else if section == Boot && key == BBS_DESCRIPTION then
      if Fresh(c.disk, DecodeDisk(value)) then Ok(c.(disk := DecodeDisk(value))) else Err(CompromisedData)
    else
      match SetSetting(c.settings, section, key, value)
      case Err(e) => Err(e)
      case Ok(s) => Ok(c.(settings := s))
  }

  // ---------------------------------------------------------------------- lines

  datatype State = State(section: Section, seen: set<Section>, config: Config)

  const INITIAL: State := State(NoSection, {}, DEFAULTS)

  function SectionOf(line: string): Option<Section> {
    if line == "[Profile]" then Some(Profile)
    else if line == "[Video]" then Some(Video)
    else if line == "[Endpoint]" then Some(Endpoint)
    else if line == "[Boot]" then Some(Boot)
    else if line == "[Marker]" then Some(MarkerSection)
    else if line == "[Behavior]" then Some(Behavior)
    else None
  }

  function FirstEquals(s: string): (e: nat)
    ensures e <= |s| && '=' !in s[..e] && (e < |s| ==> s[e] == '=')
  {
    if s == "" || s[0] == '=' then 0
    else
      var e := 1 + FirstEquals(s[1..]);
      assert s[..e] == [s[0]] + s[1..][..e - 1];
      e
  }

  /** The key and value of a line with exactly one '=', both nonempty. */
  function SplitPair(s: string): Option<(string, string)> {
    var e := FirstEquals(s);
    if e == |s| || '=' in s[e + 1..] then None
    else
      var key, value := Trim(s[..e]), Trim(s[e + 1..]);
      if key == "" || value == "" then None else Some((key, value))
  }

  predicate IsBlankOrComment(trimmed: string) {
    trimmed == "" || trimmed[0] == '#' || trimmed[0] == ';'
  }

  function ProcessTrimmed(st: State, t: string): Result<State> {
    if IsBlankOrComment(t) then Ok(st)
    else if t[0] == '[' then
      match SectionOf(t)
      case None => Err(Unsupported)
      case Some(s) => EnterSection(st, s)
    else if st.section == NoSection then Err(CompromisedData)
    else match SplitPair(t)
      case None => Err(CompromisedData)
      case Some(pair) => WithConfig(st, SetKeyValue(st.config, st.section, pair.0, pair.1))
  }

  function WithConfig(st: State, r: Result<Config>): Result<State> {
    match r
    case Err(e) => Err(e)
    case Ok(c) => Ok(st.(config := c))
  }

  function EnterSection(st: State, section: Section): Result<State> {
    if section in st.seen then Err(CompromisedData) else Ok(st.(section := section, seen := st.seen + {section}))
  }

  predicate LineOk(line: string) {
    |line| <= MAX_LINE && forall i :: 0 <= i < |line| ==> IsPrintable(line[i])
  }

  /** The meaning of one line. */
  function ParseLine(st: Result<State>, line: string): Result<State> {
    if st.Err? then st
    else if !LineOk(line) then Err(CompromisedData)
    else ProcessTrimmed(st.value, Trim(line))
  }

  // ---------------------------------------------------------------------- bytes

  /** The scanner between two bytes: the line collected so far. */
  datatype Scan = Scan(line: string, state: State)

  function Step(scan: Result<Scan>, c: char): Result<Scan> {
    if scan.Err? || c == '\r' then scan
    else if c != '\n' then
      if !IsPrintable(c) || |scan.value.line| + 1 >= MAX_LINE + 1 then Err(CompromisedData)
      else Ok(scan.value.(line := scan.value.line + [c]))
    else
      match ProcessTrimmed(scan.value.state, Trim(scan.value.line))
      case Err(e) => Err(e)
      case Ok(st) => Ok(Scan("", st))
  }

  function Feed(scan: Result<Scan>, text: string): Result<Scan> {
    if text == "" then scan else Step(Feed(scan, text[..|text| - 1]), text[|text| - 1])
  }

  const START: Result<Scan> := Ok(Scan("", INITIAL))

  function StateOf(scan: Result<Scan>): Result<State> {
    match scan
    case Err(e) => Err(e)
    case Ok(s) => Ok(s.state)
  }

  /** The state after a text and a closing line feed. */
  function Meaning(text: string): Result<State> {
    StateOf(Step(Feed(START, text), '\n'))
  }

  predicate TargetsCollide(c: Config) {
    !c.Probe() && c.targetPci.Some? && c.controllerPci.Some? && c.targetPci == c.controllerPci
  }

  function Conclude(st: Result<State>): Result<Config> {
    match st
    case Err(e) => Err(e)
    case Ok(s) =>
      if !MarkerIsValid(s.config.settings.marker) || TargetsCollide(s.config) then Err(CompromisedData)
      else Ok(s.config)
  }

  function Parse(text: string): Result<Config> {
    if text == "" then Err(InvalidParameter) else Conclude(Meaning(text))
  }

  /** Recovery accepts an explicit diagnostic mode or a complete boot
      configuration. */
  predicate UsableConfig(c: Config) {
    && c.settings.probe.Some?
    && (c.Probe() || BootReady(c))
  }

  predicate BootReady(c: Config) {
    && !c.Probe()
    && c.targetPci.Some? && c.controllerPci.Some?
    && c.settings.io.Some? && c.settings.memory.Some? && c.settings.busMaster.Some?
  }

  predicate Usable(text: string) {
    match Parse(text)
    case Err(_) => false
    case Ok(c) => UsableConfig(c)
  }

  /** One turn of the byte loop: collect, skip or process the line. */
  method Consume(line: string, state: State, byte: char) returns (r: Result<Scan>)
    ensures r == Step(Ok(Scan(line, state)), byte)
  {
    if byte == '\r' {
      return Ok(Scan(line, state));
    }
    if byte != '\n' {
      if !IsPrintable(byte) || |line| + 1 >= MAX_LINE + 1 {
        return Err(CompromisedData);
      }
      return Ok(Scan(line + [byte], state));
    }
    var processed := ProcessTrimmed(state, Trim(line));
    if processed.Err? {
      return Err(processed.error);
    }
    r := Ok(Scan("", processed.value));
  }

  method ParseConfigStrict(bytes: string) returns (r: Result<Config>)
    ensures r == Parse(bytes)
  {
    if bytes == "" {
      return Err(InvalidParameter);
    }
    hide Step, Conclude;
    var line, state := "", INITIAL;
    for index := 0 to |bytes|
      invariant Feed(START, bytes[..index]) == Ok(Scan(line, state))
    {
      assert bytes[..index + 1][..index] == bytes[..index];
      var scan := Consume(line, state, bytes[index]);
      if scan.Err? {
        FailureSticks(bytes, index + 1);
        return Err(scan.error);
      }
      line, state := scan.value.line, scan.value.state;
    }
    assert bytes[..|bytes|] == bytes;
    var closed := Consume(line, state, '\n');
    if closed.Err? {
      ConcludeError(closed.error);
      return Err(closed.error);
    }
    r := Conclude(Ok(closed.value.state));
  }

  lemma ConcludeError(e: ParseError)
    ensures Conclude(Err(e)) == Err(e)
  {
  }

  lemma {:induction false} FailureSticks(text: string, k: nat)
    requires k <= |text| && Feed(START, text[..k]).Err?
    ensures Feed(START, text) == Feed(START, text[..k])
    ensures Meaning(text) == Err(Feed(START, text[..k]).error)
    ensures Conclude(Meaning(text)) == Err(Feed(START, text[..k]).error)
  {
    if k < |text| {
      var init := text[..|text| - 1];
      assert init[..k] == text[..k];
      FailureSticks(init, k);
    } else {
      assert text[..k] == text;
    }
  }

  // --------------------------------------------------------- what a parse yields

  /** Both target addresses are ones the format can express. */
  predicate TargetsValid(c: Config) {
    && (c.targetPci.Some? ==> ValidAddress(c.targetPci.value))
    && (c.controllerPci.Some? ==> ValidAddress(c.controllerPci.value))
  }

  lemma SettingKeepsValid(c: Config, section: Section, key: string, value: string)
    requires TargetsValid(c)
    ensures var r := SetKeyValue(c, section, key, value); r.Ok? ==> TargetsValid(r.value)
  {
    ParsedAddressIsValid(value);
    hide ParseAddress, SetSetting, DecodeDisk;
  }

  lemma LineKeepsValid(st: State, t: string)
    requires TargetsValid(st.config)
    ensures var r := ProcessTrimmed(st, t); r.Ok? ==> TargetsValid(r.value.config)
  {
    hide SetKeyValue, SplitPair, SectionOf;
    if SplitPair(t).Some? {
      var pair := SplitPair(t).value;
      SettingKeepsValid(st.config, st.section, pair.0, pair.1);
    }
  }

  lemma {:induction false} FeedKeepsValid(text: string)
    ensures var r := Feed(START, text); r.Ok? ==> TargetsValid(r.value.state.config)
  {
    if text != "" {
      var init := text[..|text| - 1];
      FeedKeepsValid(init);
      if Feed(START, init).Ok? {
        LineKeepsValid(Feed(START, init).value.state, Trim(Feed(START, init).value.line));
      }
      hide ProcessTrimmed, Trim;
    }
  }

  /** Whatever text is parsed, its targets have device at most 31 and function at
      most 7. */
  lemma ParsedTargetsAreValid(text: string)
    ensures Parse(text).Ok? ==> TargetsValid(Parse(text).value)
  {
    FeedKeepsValid(text);
    var scan := Feed(START, text);
    if scan.Ok? {
      LineKeepsValid(scan.value.state, Trim(scan.value.line));
    }
    hide ProcessTrimmed, Trim, Feed, MarkerIsValid, TargetsCollide;
  }

  // ----------------------------------------------------- a text means its lines

  lemma {:induction false} FeedConcat(scan: Result<Scan>, a: string, b: string)
    ensures Feed(scan, a + b) == Feed(Feed(scan, a), b)
  {
    if b == "" {
      assert a + b == a;
    } else {
      var init := b[..|b| - 1];
      assert (a + b)[..|a + b| - 1] == a + init;
      FeedConcat(scan, a, init);
    }
  }

  /** No line is open: the text is empty or ends a line. */
  predicate AtBoundary(text: string) {
    text == "" || text[|text| - 1] == '\n'
  }

  lemma BoundaryScan(text: string)
    requires AtBoundary(text)
    ensures Feed(START, text).Ok? ==> Feed(START, text).value.line == ""
    ensures Meaning(text) == StateOf(Feed(START, text))
  {
    hide ProcessTrimmed, Trim;
    var scan := Feed(START, text);
    if scan.Ok? {
      if text != "" {
        assert scan == Step(Feed(START, text[..|text| - 1]), '\n');
      }
      BlankLine(scan.value.state);
    }
  }

  lemma BlankLine(st: State)
    ensures ProcessTrimmed(st, Trim("")) == Ok(st)
  {
    assert Trim("") == "";
  }

  predicate Unbroken(line: string) {
    '\r' !in line && '\n' !in line
  }

  lemma {:induction false} FeedLine(scan: Scan, line: string)
    requires scan.line == "" && Unbroken(line)
    ensures Feed(Ok(scan), line) == if LineOk(line) then Ok(scan.(line := line)) else Err(CompromisedData)
  {
    if line != "" {
      var init, last := line[..|line| - 1], line[|line| - 1];
      assert Unbroken(init) && last in line;
      FeedLine(scan, init);
      assert init + [last] == line;
      assert LineOk(line) ==> LineOk(init);
    }
  }

  /** A line ending: any number of carriage returns, and the line feed unless the
      text ends there. */
  datatype Ending = Ending(count: nat, feed: bool)

  const CRLF: Ending := Ending(1, true)

  function Returns(n: nat): (r: string)
    ensures |r| == n && forall i :: 0 <= i < n ==> r[i] == '\r'
  {
    seq(n, _ => '\r')
  }

  function Terminator(e: Ending): string {
    Returns(e.count) + (if e.feed then "\n" else "")
  }

  lemma CrLfText()
    ensures Terminator(CRLF) == "\r\n"
  {
  }

  /** Carriage returns are invisible. */
  lemma {:induction false} FeedReturns(scan: Result<Scan>, n: nat)
    ensures Feed(scan, Returns(n)) == scan
  {
    if n > 0 {
      assert Returns(n)[..n - 1] == Returns(n - 1);
      FeedReturns(scan, n - 1);
    }
  }

  /** Appending a line, with whatever line ending, parses that line. */
  lemma AppendLine(text: string, line: string, e: Ending)
    requires AtBoundary(text) && Unbroken(line)
    ensures Meaning(text + line + Terminator(e)) == ParseLine(Meaning(text), line)
  {
    hide ProcessTrimmed, LineOk;
    BoundaryScan(text);
    var scan := Feed(START, text);
    var whole := text + line + Terminator(e);
    FeedConcat(START, text + line, Terminator(e));
    FeedConcat(START, text, line);
    if scan.Err? {
      FeedError(scan, line);
      FeedError(scan, Terminator(e));
    } else {
      FeedLine(scan.value, line);
      CloseLine(Feed(scan, line), e);
    }
  }

  lemma {:induction false} FeedError(scan: Result<Scan>, text: string)
    requires scan.Err?
    ensures Feed(scan, text) == scan
  {
    if text != "" {
      FeedError(scan, text[..|text| - 1]);
    }
  }

  lemma CloseLine(scan: Result<Scan>, e: Ending)
    ensures Step(Feed(scan, Terminator(e)), '\n') == Step(scan, '\n')
  {
    hide ProcessTrimmed, Trim;
    FeedReturns(scan, e.count);
    FeedConcat(scan, Returns(e.count), if e.feed then "\n" else "");
    FeedOne(scan, '\n');
    var closed := Step(scan, '\n');
    if closed.Ok? {
      assert closed.value.line == "";
      BlankLine(closed.value.state);
    }
  }

  lemma FeedOne(scan: Result<Scan>, c: char)
    ensures Feed(scan, [c]) == Step(scan, c)
  {
    hide Step;
    assert [c][..0] == "";
    assert Feed(scan, [c][..0]) == scan;
  }

  /** Ending the open line does not change the meaning. */
  lemma EndLine(text: string)
    ensures Meaning(text + "\r\n") == Meaning(text)
    ensures AtBoundary(text + "\r\n")
  {
    hide Step, ProcessTrimmed, Feed;
    FeedConcat(START, text, "\r\n");
    CrLfText();
    CloseLine(Feed(START, text), CRLF);
  }
}
