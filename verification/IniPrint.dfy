/** A printer for whole configurations, defined without the parser, and the round
    trip through both. */
module IniPrint {
  import opened Basics
  import opened IniText
  import opened IniParser
  import opened IniLines
  import IniFormat
  import opened IniFormatMeaning

  // --------------------------------------------------------------------- numbers

  /** A number in a radix from 2 to 16, without leading zeros. */
  function Digits(n: nat, radix: nat, upper: bool): (s: string)
    requires 2 <= radix <= 16
    ensures s != ""
    ensures forall i :: 0 <= i < |s| ==> IsPrintable(s[i]) && s[i] != '=' && s[i] != ' '
  {
    if n < radix then [HexChar(n, upper)]
    else
      Division(n, radix);
      Digits(n / radix, radix, upper) + [HexChar(n % radix, upper)]
  }

  lemma {:induction false} DigitsValue(n: nat, radix: nat, upper: bool)
    requires 2 <= radix <= 16
    ensures Value(Digits(n, radix, upper), radix) == Some(n)
  {
    hide HexChar, HexDigit, Value;
    if n < radix {
      OneDigit(HexChar(n, upper), n, radix);
    } else {
      var q, d := n / radix, n % radix;
      Division(n, radix);
      DigitsValue(q, radix, upper);
      PushDigit(Digits(q, radix, upper), q, HexChar(d, upper), d, radix);
    }
  }

  lemma Division(n: nat, radix: nat)
    requires 2 <= radix <= n
    ensures n == n / radix * radix + n % radix && n / radix < n && n % radix < radix
  {
  }

  lemma OneDigit(c: char, d: nat, radix: nat)
    requires HexDigit(c) == d && d < radix
    ensures Value([c], radix) == Some(d)
  {
    hide HexDigit;
    assert [c][..0] == "";
    assert Value([c][..0], radix) == Some(0);
  }

  lemma PushDigit(init: string, v: nat, c: char, d: nat, radix: nat)
    requires Value(init, radix) == Some(v) && HexDigit(c) == d && d < radix
    ensures Value(init + [c], radix) == Some(v * radix + d)
  {
    hide HexDigit;
    var s := init + [c];
    assert s[..|s| - 1] == init && s[|s| - 1] == c;
  }

  /** A number as decimal digits, or as hexadecimal digits after 0x. */
  function NumberText(n: nat, hex: bool, upper: bool): string {
    if hex then "0x" + Digits(n, 16, upper) else Digits(n, 10, upper)
  }

  /** A printed number is read back, in both radices, if it is not too large. */
  lemma NumberRoundTrip(n: nat, hex: bool, upper: bool, maximum: nat)
    ensures Number(NumberText(n, hex, upper), maximum) == if n <= maximum then Some(n) else None
  {
    var text := NumberText(n, hex, upper);
    if hex {
      DigitsValue(n, 16, upper);
      assert text[2..] == Digits(n, 16, upper);
    } else {
      DigitsValue(n, 10, upper);
      DecimalIsPlain(n, upper);
    }
    hide Digits, Value;
  }

  lemma {:induction false} DecimalIsPlain(n: nat, upper: bool)
    ensures forall i :: 0 <= i < |Digits(n, 10, upper)| ==> '0' <= Digits(n, 10, upper)[i] <= '9'
  {
    if n >= 10 {
      DecimalIsPlain(n / 10, upper);
    }
  }

  /** The length of a printed 64-bit number. */
  lemma {:induction false} DigitsFit(n: nat, radix: nat, upper: bool, k: nat)
    requires 2 <= radix <= 16 && k >= 1 && n < IniFormat.Pow10(k) && radix >= 10
    ensures |Digits(n, radix, upper)| <= k
  {
    if n >= radix {
      assert n / radix <= n / 10 by { QuotientShrinks(n, radix); }
      DigitsFit(n / radix, radix, upper, k - 1);
    }
  }

  lemma QuotientShrinks(n: nat, radix: nat)
    requires radix >= 10
    ensures n / radix <= n / 10
  {
    var q := n / radix;
    assert n >= q * radix >= q * 10;
  }

  /** A 16-bit number as four hexadecimal digits. */
  function Four(v: nat, upper: bool): (s: string)
    requires v < 0x1_0000
    ensures |s| == 4 && forall i :: 0 <= i < 4 ==> IsPrintable(s[i]) && s[i] != '=' && s[i] != ' '
  {
    [HexChar(v / 0x1000, upper), HexChar(v / 0x100 % 16, upper), HexChar(v / 0x10 % 16, upper), HexChar(v % 16, upper)]
  }

  lemma FourRoundTrip(v: nat, upper: bool)
    requires v < 0x1_0000
    ensures ParseHex16(Four(v, upper)) == Some(v)
  {
    var a, b, c, d := v / 0x1000, v / 0x100 % 16, v / 0x10 % 16, v % 16;
    FourDigits(v);
    OneDigit(HexChar(a, upper), a, 16);
    PushDigit([HexChar(a, upper)], a, HexChar(b, upper), b, 16);
    PushDigit([HexChar(a, upper)] + [HexChar(b, upper)], a * 16 + b, HexChar(c, upper), c, 16);
    PushDigit([HexChar(a, upper)] + [HexChar(b, upper)] + [HexChar(c, upper)], (a * 16 + b) * 16 + c,
              HexChar(d, upper), d, 16);
    hide HexChar, Value;
    assert Four(v, upper) ==
           [HexChar(a, upper)] + [HexChar(b, upper)] + [HexChar(c, upper)] + [HexChar(d, upper)];
  }

  // --------------------------------------------------------------- configurations

  /** A text the format can carry: short, printable, without '=' and without blanks
      at its ends. */
  ghost predicate TextOk(v: string) {
    |v| < TEXT_BYTES && Printable(v) && '=' !in v && Tight(v)
  }

  ghost predicate SoundTargets(c: Config) {
    && (c.targetPci.Some? ==> ValidAddress(c.targetPci.value))
    && (c.controllerPci.Some? ==> ValidAddress(c.controllerPci.value))
    && (c.disk.Some? ==> Representable(c.disk.value))
  }

  ghost predicate SoundTexts(s: Settings) {
    && (s.name.Some? ==> TextOk(s.name.value))
    && (s.legacyOption.Some? ==> TextOk(s.legacyOption.value))
    && (s.exclude.Some? ==> TextOk(s.exclude.value))
  }

  predicate Word(v: Option<nat>) {
    v.Some? ==> v.value < 0x1_0000
  }

  predicate SoundIds(s: Settings) {
    && Word(s.expectedVendor) && Word(s.expectedDevice)
    && Word(s.expectedSubsystemVendor) && Word(s.expectedSubsystemDevice)
  }

  /** Each marker field is in range, and one that has not been seen is at its
      default. */
  ghost predicate SoundMarker(m: MarkerSettings) {
    && m.seen <= {0, 1, 2, 3, 4, 5, 6, 7}
    && (0 !in m.seen ==> !m.enabled)
    && (if 1 in m.seen then m.partition <= 0xFFFF_FFFF else m.partition == 0)
    && (if 2 in m.seen then m.signature <= 0xFFFF_FFFF else m.signature == 0)
    && (if 3 in m.seen then m.start <= 0xFFFF_FFFF_FFFF_FFFF else m.start == 0)
    && (if 4 in m.seen then m.sectors <= 0xFFFF_FFFF_FFFF_FFFF else m.sectors == 0)
    && (if 5 in m.seen then ProfileOk(m.profile) else m.profile == "")
    && (if 6 in m.seen then PathOk(m.path) && '=' !in m.path else m.path == "")
    && (if 7 in m.seen then TextOk(m.header) else m.header == "NATIVE CSM BOOT PROFILE 1")
  }

  predicate ProfileOk(v: string) {
    1 <= |v| <= 32 && forall i :: 0 <= i < |v| ==> ProfileChar(v[i])
  }

  ghost predicate Sound(c: Config) {
    SoundTargets(c) && SoundTexts(c.settings) && SoundIds(c.settings) && SoundMarker(c.settings.marker)
  }

  /** The configurations of the format. */
  ghost predicate ValidConfig(c: Config) {
    Sound(c) && MarkerIsValid(c.settings.marker) && !TargetsCollide(c)
  }

  // ------------------------------------------------------------------------- keys

  datatype Key =
    | Name
    | TargetPci | ExpectedVendor | ExpectedDevice | ExpectedSubsystemVendor | ExpectedSubsystemDevice
    | IoDecoding | MemoryDecoding | BusMastering
    | TargetControllerPci | LegacyOptionDescription | ExcludeDescription | TargetBbsDescription
    | Enabled | PartitionNumber | DiskSignature | PartitionStart | PartitionSectors
    | MarkerProfile | MarkerPath | MarkerHeader
    | Probe | VerboseLog | AutoBoot

  function NameOf(k: Key): string {
    match k
    case Name => "Name"
    case TargetPci => "TargetPci"
    case ExpectedVendor => "ExpectedVendor"
    case ExpectedDevice => "ExpectedDevice"
    case ExpectedSubsystemVendor => "ExpectedSubsystemVendor"
    case ExpectedSubsystemDevice => "ExpectedSubsystemDevice"
    case IoDecoding => "IoDecoding"
    case MemoryDecoding => "MemoryDecoding"
    case BusMastering => "BusMastering"
    case TargetControllerPci => "TargetControllerPci"
    case LegacyOptionDescription => "LegacyOptionDescription"
    case ExcludeDescription => "ExcludeDescription"
    case TargetBbsDescription => "TargetBbsDescription"
    case Enabled => "Enabled"
    case PartitionNumber => "PartitionNumber"
    case DiskSignature => "DiskSignature"
    case PartitionStart => "PartitionStart"
    case PartitionSectors => "PartitionSectors"
    case MarkerProfile => "Profile"
    case MarkerPath => "Path"
    case MarkerHeader => "Header"
    case Probe => "Probe"
    case VerboseLog => "VerboseLog"
    case AutoBoot => "AutoBoot"
  }

  /** The section a key belongs to. */
  function Home(k: Key): Section {
    match k
    case Name => Profile
    case TargetPci => Video
    case ExpectedVendor => Video
    case ExpectedDevice => Video
    case ExpectedSubsystemVendor => Video
    case ExpectedSubsystemDevice => Video
    case IoDecoding => Endpoint
    case MemoryDecoding => Endpoint
    case BusMastering => Endpoint
    case TargetControllerPci => Boot
    case LegacyOptionDescription => Boot
    case ExcludeDescription => Boot
    case TargetBbsDescription => Boot
    case Probe => Behavior
    case VerboseLog => Behavior
    case AutoBoot => Behavior
    case _ => MarkerSection
  }

  /** The marker settings, as the record of seen ones numbers them. */
  function MarkerKeyAt(n: nat): Key {
    match n
    case 0 => Enabled
    case 1 => PartitionNumber
    case 2 => DiskSignature
    case 3 => PartitionStart
    case 4 => PartitionSectors
    case 5 => MarkerProfile
    case 6 => MarkerPath
    case _ => MarkerHeader
  }

  predicate Present(c: Config, k: Key) {
    match k
    case Name => c.settings.name.Some?
    case TargetPci => c.targetPci.Some?
    case ExpectedVendor => c.settings.expectedVendor.Some?
    case ExpectedDevice => c.settings.expectedDevice.Some?
    case ExpectedSubsystemVendor => c.settings.expectedSubsystemVendor.Some?
    case ExpectedSubsystemDevice => c.settings.expectedSubsystemDevice.Some?
    case IoDecoding => c.settings.io.Some?
    case MemoryDecoding => c.settings.memory.Some?
    case BusMastering => c.settings.busMaster.Some?
    case TargetControllerPci => c.controllerPci.Some?
    case LegacyOptionDescription => c.settings.legacyOption.Some?
    case ExcludeDescription => c.settings.exclude.Some?
    case TargetBbsDescription => c.disk.Some?
    case Enabled => 0 in c.settings.marker.seen
    case PartitionNumber => 1 in c.settings.marker.seen
    case DiskSignature => 2 in c.settings.marker.seen
    case PartitionStart => 3 in c.settings.marker.seen
    case PartitionSectors => 4 in c.settings.marker.seen
    case MarkerProfile => 5 in c.settings.marker.seen
    case MarkerPath => 6 in c.settings.marker.seen
    case MarkerHeader => 7 in c.settings.marker.seen
    case Probe => c.settings.probe.Some?
    case VerboseLog => c.settings.verboseLog.Some?
    case AutoBoot => c.settings.autoBoot.Some?
  }

  function PolicyText(p: Policy): string {
    match p
    case On => "On"
    case Off => "Off"
    case Ignore => "Ignore"
  }

  function BooleanText(b: bool): string {
    if b then "true" else "false"
  }

  /** What the format leaves open: the numbers written in hexadecimal, and the case
      of the digits. */
  datatype Style = Style(hex: set<Key>, upper: bool)

  ghost function ValueOf(c: Config, k: Key, style: Style): string
    requires Sound(c) && Present(c, k)
  {
    var s, m := c.settings, c.settings.marker;
    match k
    case Name => s.name.value
    case TargetPci => FormatAddress(c.targetPci.value, style.upper)
    case ExpectedVendor => Four(s.expectedVendor.value, style.upper)
    case ExpectedDevice => Four(s.expectedDevice.value, style.upper)
    case ExpectedSubsystemVendor => Four(s.expectedSubsystemVendor.value, style.upper)
    case ExpectedSubsystemDevice => Four(s.expectedSubsystemDevice.value, style.upper)
    case IoDecoding => PolicyText(s.io.value)
    case MemoryDecoding => PolicyText(s.memory.value)
    case BusMastering => PolicyText(s.busMaster.value)
    case TargetControllerPci => FormatAddress(c.controllerPci.value, style.upper)
    case LegacyOptionDescription => s.legacyOption.value
    case ExcludeDescription => s.exclude.value
    case TargetBbsDescription => Encode(c.disk.value)
    case Enabled => BooleanText(m.enabled)
    case PartitionNumber => NumberText(m.partition, k in style.hex, style.upper)
    case DiskSignature => NumberText(m.signature, k in style.hex, style.upper)
    case PartitionStart => NumberText(m.start, k in style.hex, style.upper)
    case PartitionSectors => NumberText(m.sectors, k in style.hex, style.upper)
    case MarkerProfile => m.profile
    case MarkerPath => m.path
    case MarkerHeader => m.header
    case Probe => BooleanText(s.probe.value)
    case VerboseLog => BooleanText(s.verboseLog.value)
    case AutoBoot => BooleanText(s.autoBoot.value)
  }

  // ---------------------------------------------------------------------- the text

  /** One section of a text: its header and its settings, in any order. */
  datatype Block = Block(section: Section, keys: seq<Key>)

  type Layout = seq<Block>

  function HeaderOf(section: Section): string
    requires section != NoSection
  {
    match section
    case Profile => "[Profile]"
    case Video => "[Video]"
    case Endpoint => "[Endpoint]"
    case Boot => "[Boot]"
    case MarkerSection => "[Marker]"
    case Behavior => "[Behavior]"
  }

  /** The keys of a block belong to its section, occur once and are present. */
  predicate Fits(c: Config, b: Block) {
    && b.section != NoSection
    && (forall i :: 0 <= i < |b.keys| ==> Home(b.keys[i]) == b.section && Present(c, b.keys[i]))
    && Unique(b.keys)
  }

  predicate Unique(keys: seq<Key>) {
    forall i, j :: 0 <= i < j < |keys| ==> keys[i] != keys[j]
  }

  function KeysOf(layout: Layout): set<Key> {
    set b, k | b in layout && k in b.keys :: k
  }

  function SectionsOf(layout: Layout): set<Section> {
    set b | b in layout :: b.section
  }

  /** Every block fits, and no section occurs twice. */
  predicate Fitting(c: Config, layout: Layout) {
    && (forall i :: 0 <= i < |layout| ==> Fits(c, layout[i]))
    && (forall i, j :: 0 <= i < j < |layout| ==> layout[i].section != layout[j].section)
  }

  /** A layout of the configuration: all settings that are present, in any order of
      sections and of settings within a section. */
  ghost predicate LaysOut(layout: Layout, c: Config) {
    layout != [] && Fitting(c, layout) && forall k :: Present(c, k) ==> k in KeysOf(layout)
  }

  ghost function KeyLines(c: Config, keys: seq<Key>, style: Style): seq<string>
    requires Sound(c) && forall i :: 0 <= i < |keys| ==> Present(c, keys[i])
  {
    if keys == [] then []
    else
      var k := keys[|keys| - 1];
      KeyLines(c, keys[..|keys| - 1], style) + [NameOf(k) + "=" + ValueOf(c, k, style)]
  }

  ghost function LayoutLines(c: Config, layout: Layout, style: Style): seq<string>
    requires Sound(c) && Fitting(c, layout)
  {
    if layout == [] then []
    else
      var b := layout[|layout| - 1];
      LayoutLines(c, layout[..|layout| - 1], style) + ([HeaderOf(b.section)] + KeyLines(c, b.keys, style))
  }

  ghost function Print(c: Config, layout: Layout, style: Style): string
    requires Sound(c) && Fitting(c, layout)
  {
    IniFormat.Join(LayoutLines(c, layout, style))
  }

  // ------------------------------------------------------- the settings read so far

  function Kept<T>(value: Option<T>, keep: bool): Option<T> {
    if keep then value else None
  }

  function KeptMarker(m: MarkerSettings, ks: set<Key>): MarkerSettings {
    MarkerSettings((set n | n in m.seen && MarkerKeyAt(n) in ks),
                   Enabled in ks && m.enabled,
                   if PartitionNumber in ks then m.partition else 0,
                   if DiskSignature in ks then m.signature else 0,
                   if PartitionStart in ks then m.start else 0,
                   if PartitionSectors in ks then m.sectors else 0,
                   if MarkerProfile in ks then m.profile else "",
                   if MarkerPath in ks then m.path else "",
                   if MarkerHeader in ks then m.header else "NATIVE CSM BOOT PROFILE 1")
  }

  function KeptSettings(s: Settings, ks: set<Key>): Settings {
    Settings(KeptMarker(s.marker, ks), Kept(s.name, Name in ks),
             Kept(s.expectedVendor, ExpectedVendor in ks), Kept(s.expectedDevice, ExpectedDevice in ks),
             Kept(s.expectedSubsystemVendor, ExpectedSubsystemVendor in ks),
             Kept(s.expectedSubsystemDevice, ExpectedSubsystemDevice in ks),
             Kept(s.legacyOption, LegacyOptionDescription in ks), Kept(s.exclude, ExcludeDescription in ks),
             Kept(s.io, IoDecoding in ks), Kept(s.memory, MemoryDecoding in ks), Kept(s.busMaster, BusMastering in ks),
             Kept(s.probe, Probe in ks), Kept(s.verboseLog, VerboseLog in ks), Kept(s.autoBoot, AutoBoot in ks))
  }

  /** The first configuration with one setting of the second. */
  function Put(d: Config, c: Config, k: Key): Config {
    var s, t := d.settings, c.settings;
    match k
    case Name => d.(settings := s.(name := t.name))
    case TargetPci => d.(targetPci := c.targetPci)
    case ExpectedVendor => d.(settings := s.(expectedVendor := t.expectedVendor))
    case ExpectedDevice => d.(settings := s.(expectedDevice := t.expectedDevice))
    case ExpectedSubsystemVendor => d.(settings := s.(expectedSubsystemVendor := t.expectedSubsystemVendor))
    case ExpectedSubsystemDevice => d.(settings := s.(expectedSubsystemDevice := t.expectedSubsystemDevice))
    case IoDecoding => d.(settings := s.(io := t.io))
    case MemoryDecoding => d.(settings := s.(memory := t.memory))
    case BusMastering => d.(settings := s.(busMaster := t.busMaster))
    case TargetControllerPci => d.(controllerPci := c.controllerPci)
    case LegacyOptionDescription => d.(settings := s.(legacyOption := t.legacyOption))
    case ExcludeDescription => d.(settings := s.(exclude := t.exclude))
    case TargetBbsDescription => d.(disk := c.disk)
    case Probe => d.(settings := s.(probe := t.probe))
    case VerboseLog => d.(settings := s.(verboseLog := t.verboseLog))
    case AutoBoot => d.(settings := s.(autoBoot := t.autoBoot))
    case _ => d.(settings := s.(marker := PutMarker(s.marker, t.marker, k)))
  }

  function PutMarker(d: MarkerSettings, m: MarkerSettings, k: Key): MarkerSettings {
    match k
    case Enabled => d.(seen := d.seen + {0}, enabled := m.enabled)
    case PartitionNumber => d.(seen := d.seen + {1}, partition := m.partition)
    case DiskSignature => d.(seen := d.seen + {2}, signature := m.signature)
    case PartitionStart => d.(seen := d.seen + {3}, start := m.start)
    case PartitionSectors => d.(seen := d.seen + {4}, sectors := m.sectors)
    case MarkerProfile => d.(seen := d.seen + {5}, profile := m.profile)
    case MarkerPath => d.(seen := d.seen + {6}, path := m.path)
    case _ => d.(seen := d.seen + {7}, header := m.header)
  }

  /** The configuration with the given keys alone; the others are at their defaults. */
  function Keep(c: Config, ks: set<Key>): Config {
    Config(Kept(c.targetPci, TargetPci in ks), Kept(c.controllerPci, TargetControllerPci in ks),
           Kept(c.disk, TargetBbsDescription in ks), KeptSettings(c.settings, ks))
  }

  lemma KeepNothing(c: Config)
    ensures Keep(c, {}) == DEFAULTS
  {
    assert KeptMarker(c.settings.marker, {}) == DEFAULT_MARKER;
  }

  lemma KeepAll(c: Config, ks: set<Key>)
    requires Sound(c) && forall k :: Present(c, k) ==> k in ks
    ensures Keep(c, ks) == c
  {
    KeepAllMarker(c, ks);
    KeepAllSettings(c, ks);
    hide Sound, KeptSettings;
    assert Present(c, TargetPci) ==> TargetPci in ks;
    assert Present(c, TargetControllerPci) ==> TargetControllerPci in ks;
    assert Present(c, TargetBbsDescription) ==> TargetBbsDescription in ks;
  }

  lemma KeepAllSettings(c: Config, ks: set<Key>)
    requires KeptMarker(c.settings.marker, ks) == c.settings.marker && forall k :: Present(c, k) ==> k in ks
    ensures KeptSettings(c.settings, ks) == c.settings
  {
    KeepTexts(c, ks);
    KeepIds(c, ks);
    KeepSwitches(c, ks);
    hide KeptMarker, Present, Kept;
  }

  lemma KeepTexts(c: Config, ks: set<Key>)
    requires forall k :: Present(c, k) ==> k in ks
    ensures var s := c.settings;
      && Kept(s.name, Name in ks) == s.name
      && Kept(s.legacyOption, LegacyOptionDescription in ks) == s.legacyOption
      && Kept(s.exclude, ExcludeDescription in ks) == s.exclude
  {
    assert Present(c, Name) ==> Name in ks;
    assert Present(c, LegacyOptionDescription) ==> LegacyOptionDescription in ks;
    assert Present(c, ExcludeDescription) ==> ExcludeDescription in ks;
  }

  lemma KeepIds(c: Config, ks: set<Key>)
    requires forall k :: Present(c, k) ==> k in ks
    ensures var s := c.settings;
      && Kept(s.expectedVendor, ExpectedVendor in ks) == s.expectedVendor
      && Kept(s.expectedDevice, ExpectedDevice in ks) == s.expectedDevice
      && Kept(s.expectedSubsystemVendor, ExpectedSubsystemVendor in ks) == s.expectedSubsystemVendor
      && Kept(s.expectedSubsystemDevice, ExpectedSubsystemDevice in ks) == s.expectedSubsystemDevice
  {
    assert Present(c, ExpectedVendor) ==> ExpectedVendor in ks;
    assert Present(c, ExpectedDevice) ==> ExpectedDevice in ks;
    assert Present(c, ExpectedSubsystemVendor) ==> ExpectedSubsystemVendor in ks;
    assert Present(c, ExpectedSubsystemDevice) ==> ExpectedSubsystemDevice in ks;
  }

  lemma KeepSwitches(c: Config, ks: set<Key>)
    requires forall k :: Present(c, k) ==> k in ks
    ensures var s := c.settings;
      && Kept(s.io, IoDecoding in ks) == s.io && Kept(s.memory, MemoryDecoding in ks) == s.memory
      && Kept(s.busMaster, BusMastering in ks) == s.busMaster
      && Kept(s.probe, Probe in ks) == s.probe && Kept(s.verboseLog, VerboseLog in ks) == s.verboseLog
      && Kept(s.autoBoot, AutoBoot in ks) == s.autoBoot
  {
    assert Present(c, IoDecoding) ==> IoDecoding in ks;
    assert Present(c, MemoryDecoding) ==> MemoryDecoding in ks;
    assert Present(c, BusMastering) ==> BusMastering in ks;
    assert Present(c, Probe) ==> Probe in ks;
    assert Present(c, VerboseLog) ==> VerboseLog in ks;
    assert Present(c, AutoBoot) ==> AutoBoot in ks;
  }

  lemma KeepAllMarker(c: Config, ks: set<Key>)
    requires Sound(c) && forall k :: Present(c, k) ==> k in ks
    ensures KeptMarker(c.settings.marker, ks) == c.settings.marker
  {
    hide SoundTargets, SoundTexts, SoundIds, PathOk, ProfileOk, TextOk;
    var m := c.settings.marker;
    forall n | n in m.seen ensures MarkerKeyAt(n) in ks {
      assert Present(c, MarkerKeyAt(n));
    }
    assert (set n | n in m.seen && MarkerKeyAt(n) in ks) == m.seen;
    assert Present(c, Enabled) ==> Enabled in ks;
    assert Present(c, MarkerHeader) ==> MarkerHeader in ks;
  }

  // ------------------------------------------------------------------- single keys

  ghost predicate NameOk(name: string) {
    KeyShape(name) && Printable(name) && |name| <= 23
  }

  lemma VideoNames(k: Key)
    requires Home(k) == Video
    ensures NameOk(NameOf(k))
  {
  }

  lemma BootTargetNames(k: Key)
    requires k == TargetControllerPci || k == TargetBbsDescription
    ensures NameOk(NameOf(k))
  {
  }

  lemma BootOptionNames(k: Key)
    requires k == LegacyOptionDescription || k == ExcludeDescription
    ensures NameOk(NameOf(k))
  {
  }

  lemma MarkerNames(k: Key)
    requires Home(k) == MarkerSection
    ensures NameOk(NameOf(k))
  {
  }

  lemma OtherNames(k: Key)
    requires Home(k) == Profile || Home(k) == Endpoint || Home(k) == Behavior
    ensures NameOk(NameOf(k))
  {
  }

  lemma KeyNames(k: Key)
    ensures NameOk(NameOf(k))
  {
    hide NameOk, NameOf;
    match Home(k)
    case Video => VideoNames(k);
    case Boot =>
      if k == TargetControllerPci || k == TargetBbsDescription {
        BootTargetNames(k);
      } else {
        BootOptionNames(k);
      }
    case MarkerSection => MarkerNames(k);
    case _ => OtherNames(k);
  }

  /** A value that a line can carry as it is. */
  ghost predicate Carried(v: string) {
    Tight(v) && '=' !in v && Printable(v) && |v| <= 130
  }

  predicate Solid(v: string) {
    v != "" && |v| <= 130 && forall i :: 0 <= i < |v| ==> IsPrintable(v[i]) && v[i] != '=' && v[i] != ' '
  }

  lemma SolidIsCarried(v: string)
    requires Solid(v)
    ensures Carried(v)
  {
    assert IsPrintable(v[0]) && IsPrintable(v[|v| - 1]);
  }

  lemma NumberIsSolid(n: nat, hex: bool, upper: bool)
    requires n <= 0xFFFF_FFFF_FFFF_FFFF
    ensures Solid(NumberText(n, hex, upper))
  {
    IniFormat.Pow10Twenty();
    DigitsFit(n, if hex then 16 else 10, upper, 20);
    hide Digits, IniFormat.Pow10;
  }

  lemma WordIsSolid(v: nat, upper: bool)
    requires v < 0x1_0000
    ensures Solid(Four(v, upper))
  {
    hide Four;
  }

  lemma MarkerTextIsSolid(v: string)
    requires ProfileOk(v) || (PathOk(v) && '=' !in v)
    ensures Solid(v)
  {
    if ProfileOk(v) {
      assert forall i :: 0 <= i < |v| ==> ProfileChar(v[i]) && v[i] != '=';
    }
  }

  lemma WordsAreSolid(policy: Policy, b: bool)
    ensures Solid(PolicyText(policy)) && Solid(BooleanText(b))
  {
  }

  lemma MarkerValue(c: Config, k: Key, style: Style)
    requires Sound(c) && Present(c, k) && Home(k) == MarkerSection
    ensures Carried(ValueOf(c, k, style))
  {
    hide Solid, NumberText, PathOk, ProfileOk, BooleanText, SoundTargets, SoundTexts, SoundIds;
    var m := c.settings.marker;
    match k {
      case Enabled => WordsAreSolid(On, m.enabled);
      case PartitionNumber => NumberIsSolid(m.partition, k in style.hex, style.upper);
      case DiskSignature => NumberIsSolid(m.signature, k in style.hex, style.upper);
      case PartitionStart => NumberIsSolid(m.start, k in style.hex, style.upper);
      case PartitionSectors => NumberIsSolid(m.sectors, k in style.hex, style.upper);
      case MarkerProfile => MarkerTextIsSolid(m.profile);
      case MarkerPath => MarkerTextIsSolid(m.path);
      case MarkerHeader => { return; }
    }
    SolidIsCarried(ValueOf(c, k, style));
  }

  lemma VideoValue(c: Config, k: Key, style: Style)
    requires Sound(c) && Present(c, k) && Home(k) == Video
    ensures Carried(ValueOf(c, k, style))
  {
    hide Four, FormatAddress, SoundMarker, SoundTexts;
    if k != TargetPci {
      SolidIsCarried(ValueOf(c, k, style));
    }
  }

  lemma SwitchValue(c: Config, k: Key, style: Style)
    requires Sound(c) && Present(c, k) && (Home(k) == Endpoint || Home(k) == Behavior)
    ensures Carried(ValueOf(c, k, style))
  {
    hide Solid, PolicyText, BooleanText, SoundMarker, SoundTexts, SoundTargets, SoundIds;
    var s := c.settings;
    match k {
      case IoDecoding => WordsAreSolid(s.io.value, true);
      case MemoryDecoding => WordsAreSolid(s.memory.value, true);
      case BusMastering => WordsAreSolid(s.busMaster.value, true);
      case Probe => WordsAreSolid(On, s.probe.value);
      case VerboseLog => WordsAreSolid(On, s.verboseLog.value);
      case AutoBoot => WordsAreSolid(On, s.autoBoot.value);
    }
    SolidIsCarried(ValueOf(c, k, style));
  }

  lemma BootValue(c: Config, k: Key, style: Style)
    requires Sound(c) && Present(c, k) && (Home(k) == Boot || Home(k) == Profile)
    ensures Carried(ValueOf(c, k, style))
  {
    hide FormatAddress, SoundMarker, SoundIds, Encode, Representable;
    if k == TargetBbsDescription {
      EncodeShape(c.disk.value);
    }
  }

  lemma ValueIsCarried(c: Config, k: Key, style: Style)
    requires Sound(c) && Present(c, k)
    ensures Carried(ValueOf(c, k, style))
  {
    hide Carried, ValueOf, Sound, Present;
    match Home(k)
    case MarkerSection => MarkerValue(c, k, style);
    case Video => VideoValue(c, k, style);
    case Endpoint => SwitchValue(c, k, style);
    case Behavior => SwitchValue(c, k, style);
    case _ => BootValue(c, k, style);
  }

  // What the parser does with one printed setting.

  lemma SettingsOnly(d: Config, section: Section, key: string, value: string, s: Settings)
    requires SetSetting(d.settings, section, key, value) == Ok(s)
    requires section != Video || key != TARGET_PCI
    requires section != Boot || (key != CONTROLLER_PCI && key != BBS_DESCRIPTION)
    ensures SetKeyValue(d, section, key, value) == Ok(d.(settings := s))
  {
    hide SetSetting;
  }

  lemma TargetTaken(d: Config, c: Config, k: Key, style: Style)
    requires Sound(c) && Present(c, k) && !Present(d, k)
    requires k == TargetPci || k == TargetControllerPci || k == TargetBbsDescription
    ensures SetKeyValue(d, Home(k), NameOf(k), ValueOf(c, k, style)) == Ok(Put(d, c, k))
  {
    hide ParseAddress, FormatAddress, DecodeDisk, Encode, SetSetting, SoundMarker, SoundTexts, SoundIds;
    match k
    case TargetPci => AddressRoundTrip(c.targetPci.value, style.upper);
    case TargetControllerPci => AddressRoundTrip(c.controllerPci.value, style.upper);
    case TargetBbsDescription =>
      DiskRoundTrip(c.disk.value);
      IniFormatMeaning.DiskSetting(d, Encode(c.disk.value), c.disk.value);
  }

  lemma IdTaken(d: Config, c: Config, k: Key, style: Style)
    requires Sound(c) && Present(c, k) && !Present(d, k) && Home(k) == Video && k != TargetPci
    ensures SetVideo(d.settings, NameOf(k), ValueOf(c, k, style)) == Ok(Put(d, c, k).settings)
    ensures Put(d, c, k) == d.(settings := Put(d, c, k).settings) && NameOf(k) != TARGET_PCI
  {
    hide ParseHex16, Four, SoundMarker, SoundTexts, SoundTargets;
    var s := c.settings;
    match k
    case ExpectedVendor => FourRoundTrip(s.expectedVendor.value, style.upper);
    case ExpectedDevice => FourRoundTrip(s.expectedDevice.value, style.upper);
    case ExpectedSubsystemVendor => FourRoundTrip(s.expectedSubsystemVendor.value, style.upper);
    case ExpectedSubsystemDevice => FourRoundTrip(s.expectedSubsystemDevice.value, style.upper);
  }

  lemma SwitchTaken(d: Config, c: Config, k: Key, style: Style)
    requires Sound(c) && Present(c, k) && !Present(d, k) && (Home(k) == Endpoint || Home(k) == Behavior)
    ensures SetSetting(d.settings, Home(k), NameOf(k), ValueOf(c, k, style)) == Ok(Put(d, c, k).settings)
    ensures Put(d, c, k) == d.(settings := Put(d, c, k).settings)
  {
    hide SoundMarker, SoundTexts, SoundTargets, SoundIds, SetMarker, SetVideo, SetBoot;
  }

  lemma TextTaken(d: Config, c: Config, k: Key, style: Style)
    requires Sound(c) && Present(c, k) && !Present(d, k)
    requires k == Name || k == LegacyOptionDescription || k == ExcludeDescription
    ensures SetSetting(d.settings, Home(k), NameOf(k), ValueOf(c, k, style)) == Ok(Put(d, c, k).settings)
    ensures Put(d, c, k) == d.(settings := Put(d, c, k).settings)
    ensures NameOf(k) != CONTROLLER_PCI && NameOf(k) != BBS_DESCRIPTION
  {
    hide SoundMarker, SoundTargets, SoundIds, SetMarker, SetVideo, SetEndpoint, SetBehavior;
  }

  lemma MarkerNumberTaken(d: MarkerSettings, k: nat, key: string, n: nat, hex: bool, upper: bool)
    requires MarkerKey(key) == Some(k) && 1 <= k <= 4 && k !in d.seen
    requires n <= if k < 3 then 0xFFFF_FFFF else 0xFFFF_FFFF_FFFF_FFFF
    ensures var d' := d.(seen := d.seen + {k});
      SetMarker(d, key, NumberText(n, hex, upper)) ==
        Some(if k == 1 then d'.(partition := n) else if k == 2 then d'.(signature := n)
             else if k == 3 then d'.(start := n) else d'.(sectors := n))
  {
    NumberRoundTrip(n, hex, upper, if k < 3 then 0xFFFF_FFFF else 0xFFFF_FFFF_FFFF_FFFF);
    hide Number, NumberText, MarkerKey;
  }

  lemma MarkerKeys()
    ensures MarkerKey("Enabled") == Some(0) && MarkerKey("PartitionNumber") == Some(1)
    ensures MarkerKey("DiskSignature") == Some(2) && MarkerKey("PartitionStart") == Some(3)
    ensures MarkerKey("PartitionSectors") == Some(4) && MarkerKey("Profile") == Some(5)
    ensures MarkerKey("Path") == Some(6) && MarkerKey("Header") == Some(7)
  {
  }

  lemma MarkerTextTaken(d: MarkerSettings, k: Key, c: Config, style: Style)
    requires Sound(c) && Present(c, k)
    requires match k
      case Enabled => 0 !in d.seen
      case MarkerProfile => 5 !in d.seen
      case MarkerPath => 6 !in d.seen
      case MarkerHeader => 7 !in d.seen
      case _ => false
    ensures SetMarker(d, NameOf(k), ValueOf(c, k, style)) == Some(PutMarker(d, c.settings.marker, k))
  {
    MarkerKeys();
    hide MarkerKey, PathOk, SoundTexts, SoundTargets, SoundIds, Number;
  }

  lemma MarkerTaken(d: Config, c: Config, k: Key, style: Style)
    requires Sound(c) && Present(c, k) && !Present(d, k) && Home(k) == MarkerSection
    ensures SetMarker(d.settings.marker, NameOf(k), ValueOf(c, k, style)) ==
            Some(PutMarker(d.settings.marker, c.settings.marker, k))
  {
    hide SetMarker, NumberText, MarkerKey, SoundTexts, SoundTargets, SoundIds;
    MarkerKeys();
    var old', m, hex := d.settings.marker, c.settings.marker, k in style.hex;
    match k
    case PartitionNumber => MarkerNumberTaken(old', 1, NameOf(k), m.partition, hex, style.upper);
    case DiskSignature => MarkerNumberTaken(old', 2, NameOf(k), m.signature, hex, style.upper);
    case PartitionStart => MarkerNumberTaken(old', 3, NameOf(k), m.start, hex, style.upper);
    case PartitionSectors => MarkerNumberTaken(old', 4, NameOf(k), m.sectors, hex, style.upper);
    case _ => MarkerTextTaken(old', k, c, style);
  }

  /** The parser takes a printed setting for exactly the setting it was printed from. */
  lemma SettingTaken(d: Config, c: Config, k: Key, style: Style)
    requires Sound(c) && Present(c, k) && !Present(d, k)
    ensures SetKeyValue(d, Home(k), NameOf(k), ValueOf(c, k, style)) == Ok(Put(d, c, k))
  {
    hide SetKeyValue, SetMarker, SetVideo, SetBoot, SetEndpoint, SetBehavior, ValueOf, Present, Sound, NameOf;
    if k == TargetPci || k == TargetControllerPci || k == TargetBbsDescription {
      TargetTaken(d, c, k, style);
    } else {
      var value := ValueOf(c, k, style);
      match Home(k) {
        case Video => IdTaken(d, c, k, style);
        case MarkerSection => MarkerTaken(d, c, k, style);
        case Endpoint => SwitchTaken(d, c, k, style);
        case Behavior => SwitchTaken(d, c, k, style);
        case _ => TextTaken(d, c, k, style);
      }
      SettingsOnly(d, Home(k), NameOf(k), value, Put(d, c, k).settings);
    }
  }

  function NumberOf(k: Key): nat {
    match k
    case Enabled => 0
    case PartitionNumber => 1
    case DiskSignature => 2
    case PartitionStart => 3
    case PartitionSectors => 4
    case MarkerProfile => 5
    case MarkerPath => 6
    case _ => 7
  }

  lemma KeepMoreSeen(seen: set<nat>, ks: set<Key>, k: Key)
    requires k !in ks && Home(k) == MarkerSection && NumberOf(k) in seen && seen <= {0, 1, 2, 3, 4, 5, 6, 7}
    ensures (set n | n in seen && MarkerKeyAt(n) in ks + {k}) ==
            (set n | n in seen && MarkerKeyAt(n) in ks) + {NumberOf(k)}
    ensures NumberOf(k) !in (set n | n in seen && MarkerKeyAt(n) in ks)
  {
    assert forall n :: n in seen ==> (MarkerKeyAt(n) == k <==> n == NumberOf(k));
  }

  lemma KeepMoreMarker(m: MarkerSettings, ks: set<Key>, k: Key)
    requires k !in ks && Home(k) == MarkerSection && NumberOf(k) in m.seen && m.seen <= {0, 1, 2, 3, 4, 5, 6, 7}
    ensures KeptMarker(m, ks + {k}) == PutMarker(KeptMarker(m, ks), m, k)
    ensures NumberOf(k) !in KeptMarker(m, ks).seen
  {
    hide MarkerKeyAt;
    KeepMoreSeen(m.seen, ks, k);
  }

  lemma KeepMoreOther(m: MarkerSettings, ks: set<Key>, k: Key)
    requires Home(k) != MarkerSection
    ensures KeptMarker(m, ks + {k}) == KeptMarker(m, ks)
  {
    assert (set n | n in m.seen && MarkerKeyAt(n) in ks + {k}) == (set n | n in m.seen && MarkerKeyAt(n) in ks);
  }

  lemma KeepMoreTarget(c: Config, ks: set<Key>, k: Key)
    requires Present(c, k) && k !in ks && (k == TargetPci || k == TargetControllerPci || k == TargetBbsDescription)
    ensures !Present(Keep(c, ks), k) && Keep(c, ks + {k}) == Put(Keep(c, ks), c, k)
  {
    KeepMoreOther(c.settings.marker, ks, k);
    hide KeptMarker;
    assert KeptSettings(c.settings, ks + {k}) == KeptSettings(c.settings, ks);
  }

  lemma KeepMoreId(c: Config, ks: set<Key>, k: Key)
    requires Present(c, k) && k !in ks && Home(k) == Video && k != TargetPci
    ensures !Present(Keep(c, ks), k) && Keep(c, ks + {k}) == Put(Keep(c, ks), c, k)
  {
    KeepMoreOther(c.settings.marker, ks, k);
    hide KeptMarker;
  }

  lemma KeepMoreText(c: Config, ks: set<Key>, k: Key)
    requires Present(c, k) && k !in ks && (k == Name || k == LegacyOptionDescription || k == ExcludeDescription)
    ensures !Present(Keep(c, ks), k) && Keep(c, ks + {k}) == Put(Keep(c, ks), c, k)
  {
    KeepMoreOther(c.settings.marker, ks, k);
    hide KeptMarker;
  }

  lemma KeepMoreSwitch(c: Config, ks: set<Key>, k: Key)
    requires Present(c, k) && k !in ks && (Home(k) == Endpoint || Home(k) == Behavior)
    ensures !Present(Keep(c, ks), k) && Keep(c, ks + {k}) == Put(Keep(c, ks), c, k)
  {
    KeepMoreOther(c.settings.marker, ks, k);
    hide KeptMarker;
  }

  lemma PresentIsSeen(c: Config, k: Key)
    requires Home(k) == MarkerSection
    ensures Present(c, k) <==> NumberOf(k) in c.settings.marker.seen
  {
  }

  lemma KeepMoreAround(c: Config, ks: set<Key>, k: Key)
    requires Home(k) == MarkerSection
    ensures var d := Keep(c, ks);
      Keep(c, ks + {k}) == d.(settings := d.settings.(marker := KeptMarker(c.settings.marker, ks + {k})))
  {
    hide KeptMarker;
  }

  lemma KeepMoreInMarker(c: Config, ks: set<Key>, k: Key)
    requires Sound(c) && Present(c, k) && k !in ks && Home(k) == MarkerSection
    ensures !Present(Keep(c, ks), k) && Keep(c, ks + {k}) == Put(Keep(c, ks), c, k)
  {
    PresentIsSeen(c, k);
    PresentIsSeen(Keep(c, ks), k);
    KeepMoreAround(c, ks, k);
    KeepMoreMarker(c.settings.marker, ks, k);
    hide KeptMarker, PutMarker, Present, NumberOf, Kept, SoundTargets, SoundTexts, SoundIds;
  }

  /** Keeping one more key puts that setting, and it was absent before. */
  lemma KeepMore(c: Config, ks: set<Key>, k: Key)
    requires Sound(c) && Present(c, k) && k !in ks
    ensures !Present(Keep(c, ks), k) && Keep(c, ks + {k}) == Put(Keep(c, ks), c, k)
  {
    hide Sound, Present, Keep, Put;
    if k == TargetPci || k == TargetControllerPci || k == TargetBbsDescription {
      KeepMoreTarget(c, ks, k);
      return;
    }
    match Home(k)
    case MarkerSection => KeepMoreInMarker(c, ks, k);
    case Endpoint => KeepMoreSwitch(c, ks, k);
    case Behavior => KeepMoreSwitch(c, ks, k);
    case Video => KeepMoreId(c, ks, k);
    case _ => KeepMoreText(c, ks, k);
  }

  // -------------------------------------------------------------------- whole texts

  function KeySet(keys: seq<Key>): set<Key> {
    set k | k in keys
  }

  lemma KeyAccepted(now: State, c: Config, ks: set<Key>, k: Key, style: Style)
    requires Sound(c) && Present(c, k) && k !in ks && now.section == Home(k) && now.config == Keep(c, ks)
    ensures Accepted(now, NameOf(k), ValueOf(c, k, style), Keep(c, ks + {k}))
  {
    hide Sound, Present, ValueOf, NameOf, SetKeyValue, KeyShape, Tight, Printable, Keep, Put;
    KeepMore(c, ks, k);
    SettingTaken(now.config, c, k, style);
    KeyNames(k);
    ValueIsCarried(c, k, style);
  }

  lemma {:induction false} KeysMeaning(now: State, c: Config, ks: set<Key>, keys: seq<Key>, style: Style)
    requires Sound(c) && Fits(c, Block(now.section, keys)) && now.config == Keep(c, ks)
    requires forall i :: 0 <= i < |keys| ==> keys[i] !in ks
    ensures Fold(Ok(now), KeyLines(c, keys, style)) == Ok(now.(config := Keep(c, ks + KeySet(keys))))
  {
    hide Sound, Present, ValueOf, NameOf, Keep, Fold, Accepted;
    if keys == [] {
      FoldNothing(Ok(now));
      assert ks + KeySet(keys) == ks;
    } else {
      var init, k := keys[..|keys| - 1], keys[|keys| - 1];
      KeysMeaning(now, c, ks, init, style);
      var done := ks + KeySet(init);
      var then' := now.(config := Keep(c, done));
      KeyAccepted(then', c, done, k, style);
      AcceptedStep(Ok(now), KeyLines(c, init, style), then', NameOf(k), ValueOf(c, k, style), Keep(c, done + {k}));
      assert ks + KeySet(keys) == done + {k};
    }
  }

  /** The state after the blocks of a layout. */
  function Reached(c: Config, layout: Layout): State {
    State(if layout == [] then NoSection else layout[|layout| - 1].section, SectionsOf(layout), Keep(c, KeysOf(layout)))
  }

  lemma HeaderIs(section: Section)
    requires section != NoSection
    ensures SectionOf(HeaderOf(section)) == Some(section) && LineOk(HeaderOf(section))
  {
  }

  lemma BlockMeaning(now: State, c: Config, ks: set<Key>, b: Block, style: Style)
    requires Sound(c) && Fits(c, b) && b.section !in now.seen && now.config == Keep(c, ks)
    requires forall i :: 0 <= i < |b.keys| ==> b.keys[i] !in ks
    ensures Fold(Ok(now), [HeaderOf(b.section)] + KeyLines(c, b.keys, style)) ==
            Ok(State(b.section, now.seen + {b.section}, Keep(c, ks + KeySet(b.keys))))
  {
    hide Sound, Present, HeaderOf, SectionOf, LineOk, Keep, Fold, KeyLines;
    HeaderIs(b.section);
    FoldNothing(Ok(now));
    HeaderStep(Ok(now), [], now, HeaderOf(b.section), b.section);
    assert [] + [HeaderOf(b.section)] == [HeaderOf(b.section)];
    var entered := Entered(now, b.section);
    assert b == Block(entered.section, b.keys);
    KeysMeaning(entered, c, ks, b.keys, style);
    FoldConcat(Ok(now), [HeaderOf(b.section)], KeyLines(c, b.keys, style));
  }

  lemma LayoutPush(c: Config, layout: Layout)
    requires layout != [] && Fitting(c, layout)
    ensures var init, b := layout[..|layout| - 1], layout[|layout| - 1];
      && Fitting(c, init) && Fits(c, b) && b.section !in SectionsOf(init)
      && SectionsOf(layout) == SectionsOf(init) + {b.section}
      && KeysOf(layout) == KeysOf(init) + KeySet(b.keys)
      && forall i :: 0 <= i < |b.keys| ==> b.keys[i] !in KeysOf(init)
  {
    hide Present, Home;
    var init, b := layout[..|layout| - 1], layout[|layout| - 1];
    assert layout == init + [b];
    assert forall other :: other in init ==> Fits(c, other) && other.section != b.section;
  }

  lemma {:induction false} LayoutMeaning(c: Config, layout: Layout, style: Style)
    requires Sound(c) && Fitting(c, layout)
    ensures Fold(Ok(INITIAL), LayoutLines(c, layout, style)) == Ok(Reached(c, layout))
  {
    hide Sound, Present, HeaderOf, Keep, Fold, KeyLines;
    if layout == [] {
      FoldNothing(Ok(INITIAL));
      KeepNothing(c);
      assert KeysOf(layout) == {} && SectionsOf(layout) == {};
    } else {
      var init, b := layout[..|layout| - 1], layout[|layout| - 1];
      LayoutPush(c, layout);
      LayoutMeaning(c, init, style);
      BlockMeaning(Reached(c, init), c, KeysOf(init), b, style);
      FoldConcat(Ok(INITIAL), LayoutLines(c, init, style), [HeaderOf(b.section)] + KeyLines(c, b.keys, style));
    }
  }

  /** Printing a valid configuration in any layout and style, and parsing the text,
      gives exactly the configuration. */
  lemma PrintParseRoundTrip(c: Config, layout: Layout, style: Style)
    requires ValidConfig(c) && LaysOut(layout, c)
    ensures Parse(Print(c, layout, style)) == Ok(c)
  {
    hide Sound, Present, Fitting, MarkerIsValid, TargetsCollide, Fold, Meaning, Keep, Unbroken;
    var lines := LayoutLines(c, layout, style);
    LayoutMeaning(c, layout, style);
    KeepAll(c, KeysOf(layout));
    FoldOkLines(Ok(INITIAL), lines);
    JoinMeaning(lines);
    hide LayoutLines, KeysOf;
    assert Conclude(Fold(Ok(INITIAL), lines)) == Ok(c);
  }

  // ------------------------------------------------------------ the documented order

  function KeysIn(section: Section): seq<Key> {
    match section
    case NoSection => []
    case Profile => [Name]
    case Video => [TargetPci, ExpectedVendor, ExpectedDevice, ExpectedSubsystemVendor, ExpectedSubsystemDevice]
    case Endpoint => [IoDecoding, MemoryDecoding, BusMastering]
    case Boot => [TargetControllerPci, TargetBbsDescription, LegacyOptionDescription, ExcludeDescription]
    case MarkerSection =>
      [Enabled, PartitionNumber, DiskSignature, PartitionStart, PartitionSectors, MarkerProfile, MarkerPath,
       MarkerHeader]
    case Behavior => [Probe, VerboseLog, AutoBoot]
  }

  lemma KeysBelong(section: Section)
    ensures forall i :: 0 <= i < |KeysIn(section)| ==> Home(KeysIn(section)[i]) == section
    ensures Unique(KeysIn(section))
  {
  }

  lemma KeyIsListed(k: Key)
    ensures k in KeysIn(Home(k)) && Home(k) != NoSection
  {
    var n := match k
      case ExpectedVendor => 1
      case ExpectedDevice => 2
      case ExpectedSubsystemVendor => 3
      case ExpectedSubsystemDevice => 4
      case MemoryDecoding => 1
      case BusMastering => 2
      case TargetBbsDescription => 1
      case LegacyOptionDescription => 2
      case ExcludeDescription => 3
      case VerboseLog => 1
      case AutoBoot => 2
      case _ => if Home(k) == MarkerSection then NumberOf(k) else 0;
    assert KeysIn(Home(k))[n] == k;
  }

  function PresentOf(c: Config, keys: seq<Key>): (r: seq<Key>)
    ensures forall k :: k in r <==> k in keys && Present(c, k)
  {
    if keys == [] then []
    else
      var k := keys[|keys| - 1];
      PresentOf(c, keys[..|keys| - 1]) + (if Present(c, k) then [k] else [])
  }

  lemma {:induction false} PresentOfUnique(c: Config, keys: seq<Key>)
    requires Unique(keys)
    ensures Unique(PresentOf(c, keys))
  {
    hide Present;
    if keys != [] {
      var init, k := keys[..|keys| - 1], keys[|keys| - 1];
      PresentOfUnique(c, init);
      assert k !in init;
      PushUnique(PresentOf(c, init), k);
    }
  }

  lemma PushUnique(keys: seq<Key>, k: Key)
    requires Unique(keys) && k !in keys
    ensures Unique(keys + [k])
  {
  }

  function StandardBlock(c: Config, section: Section): Block {
    Block(section, PresentOf(c, KeysIn(section)))
  }

  const SECTIONS: seq<Section> := [Profile, Video, Endpoint, Boot, MarkerSection, Behavior]

  function Place(section: Section): (i: nat)
    requires section != NoSection
    ensures i < |SECTIONS| && SECTIONS[i] == section
  {
    match section
    case Profile => 0
    case Video => 1
    case Endpoint => 2
    case Boot => 3
    case MarkerSection => 4
    case Behavior => 5
  }

  /** All six sections in the documented order. */
  function Standard(c: Config): Layout {
    seq(|SECTIONS|, i requires 0 <= i < |SECTIONS| => StandardBlock(c, SECTIONS[i]))
  }

  lemma StandardFits(c: Config, section: Section)
    requires section != NoSection
    ensures Fits(c, StandardBlock(c, section))
  {
    hide Present, KeysIn, Home;
    KeysBelong(section);
    var r := PresentOf(c, KeysIn(section));
    forall i | 0 <= i < |r| ensures Home(r[i]) == section && Present(c, r[i]) {
      assert r[i] in r;
    }
    PresentOfUnique(c, KeysIn(section));
    hide Unique;
  }

  lemma StandardLaysOut(c: Config)
    ensures LaysOut(Standard(c), c)
  {
    hide Present, KeysIn, Home, Fits;
    var layout := Standard(c);
    forall i | 0 <= i < |layout| ensures Fits(c, layout[i]) {
      StandardFits(c, SECTIONS[i]);
    }
    forall k | Present(c, k) ensures k in KeysOf(layout) {
      KeyIsListed(k);
      var i := Place(Home(k));
      assert layout[i] in layout && k in layout[i].keys;
    }
  }
}
