/** The candidate INI formatter: its text, its size and its meaning. */
module IniFormat {
  import opened Basics
  import opened IniText
  import opened IniParser
  import opened IniLines

  const MAX_DISPLAYS: nat := 32
  const MAX_STORAGE: nat := 64
  const STRING_BYTES: nat := 129
  const INI_BYTES: nat := 65536
  const ENCODED_BYTES: nat := 131

  datatype Display = Display(
    address: Address, addressValid: bool,
    rawSegment: nat, rawBus: nat, rawDevice: nat, rawFunction: nat,
    vendor: nat, deviceId: nat, subsystemVendor: nat, subsystemDevice: nat,
    gopKnown: bool, gop: bool, ownerKnown: bool, owner: bool,
    romExposed: bool, romAccepted: bool, pathDiscovered: bool, pathValidated: bool,
    eligible: bool, selected: bool)

  datatype Storage = Storage(
    bbsIndex: nat, address: Address, addressValid: bool,
    rawBus: nat, rawDevice: nat, rawFunction: nat,
    manufacturer: string, description: string, usb: bool, eligible: bool, selected: bool)
  {
    /** The two character arrays and the width of the index. */
    predicate Valid() {
      |manufacturer| == |description| == STRING_BYTES && bbsIndex < 0x1_0000_0000_0000_0000
    }
  }

  // --------------------------------------------------------------- printing numbers

  function Hex(value: nat, digits: nat): (s: string)
    ensures |s| == digits
    ensures forall i :: 0 <= i < digits ==> IsPrintable(s[i]) && s[i] != '='
  {
    if digits == 0 then "" else Hex(value / 16, digits - 1) + [HexChar(value % 16, true)]
  }

  function DecChar(d: nat): (c: char)
    requires d < 10
    ensures IsPrintable(c)
  {
    ('0' as int + d) as char
  }

  function Dec(n: nat): (s: string)
    ensures forall i :: 0 <= i < |s| ==> IsPrintable(s[i])
  {
    if n < 10 then [DecChar(n)] else Dec(n / 10) + [DecChar(n % 10)]
  }

  function Pow10(k: nat): nat {
    if k == 0 then 1 else 10 * Pow10(k - 1)
  }

  lemma {:induction false} DecLength(n: nat, k: nat)
    requires k >= 1 && n < Pow10(k)
    ensures |Dec(n)| <= k
  {
    if n >= 10 {
      DecLength(n / 10, k - 1);
    }
  }

  lemma DecLengths(n: nat)
    ensures n < 100 ==> |Dec(n)| <= 2
    ensures n < 0x1_0000_0000_0000_0000 ==> |Dec(n)| <= 20
  {
    if n < 100 {
      assert Pow10(2) == 100;
      DecLength(n, 2);
    } else if n < 0x1_0000_0000_0000_0000 {
      Pow10Twenty();
      DecLength(n, 20);
    }
  }

  lemma Pow10Twenty()
    ensures Pow10(20) == 100_000_000_000_000_000_000
  {
    assert Pow10(5) == 100_000;
    assert Pow10(10) == 10_000_000_000;
    assert Pow10(15) == 1_000_000_000_000_000;
  }

  function Bdf(a: Address): string {
    Hex(a.segment, 4) + ":" + Hex(a.bus, 2) + ":" + Hex(a.device, 2) + "." + Hex(a.func, 1)
  }

  /** For an address the format can express, the printed form is the one the
      address parser undoes. */
  lemma BdfIsFormat(a: Address)
    requires ValidAddress(a)
    ensures Bdf(a) == FormatAddress(a, true)
  {
    hide HexChar, Hex;
    HexDigits(a.segment);
    HexDigits(a.bus);
    HexDigits(a.device);
    HexDigits(a.func);
    FourDigits(a.segment);
    assert a.segment / 0x1000 % 16 == a.segment / 0x1000;
    assert a.bus / 16 % 16 == a.bus / 16;
    assert a.device / 16 % 16 == a.device / 16;
    assert a.func % 16 == a.func;
  }

  lemma HexStep(v: nat, digits: nat)
    requires digits > 0
    ensures Hex(v, digits) == Hex(v / 16, digits - 1) + [HexChar(v % 16, true)]
  {
    hide HexChar;
  }

  lemma HexTwo(v: nat)
    ensures Hex(v, 1) == [HexChar(v % 16, true)]
    ensures Hex(v, 2) == [HexChar(v / 16 % 16, true), HexChar(v % 16, true)]
  {
    HexStep(v, 1);
    HexStep(v, 2);
    HexStep(v / 16, 1);
    assert Hex(v / 16, 0) == Hex(v / 16 / 16, 0) == "";
    hide Hex, HexChar;
  }

  lemma HexDigits(v: nat)
    ensures Hex(v, 1) == [HexChar(v % 16, true)]
    ensures Hex(v, 2) == [HexChar(v / 16 % 16, true), HexChar(v % 16, true)]
    ensures Hex(v, 4) == [HexChar(v / 0x1000 % 16, true), HexChar(v / 0x100 % 16, true),
                          HexChar(v / 0x10 % 16, true), HexChar(v % 16, true)]
  {
    hide Hex, HexChar;
    HexTwo(v);
    HexTwo(v / 0x100);
    HexStep(v, 4);
    HexStep(v / 16, 3);
    assert v / 16 / 16 == v / 0x100 && v / 0x100 / 16 == v / 0x1000;
  }

  // --------------------------------------------------------------- printing strings

  const NUL: char := '\0'

  /** A character array read up to its terminator. */
  function CString(s: string): (r: string)
    ensures |r| <= |s|
  {
    if s == "" || s[0] == NUL then "" else [s[0]] + CString(s[1..])
  }

  predicate Terminated(s: string) {
    NUL in s
  }

  function Dots(s: string): (r: string)
    ensures |r| == |s| && Printable(r)
  {
    seq(|s|, i requires 0 <= i < |s| => if IsPrintable(s[i]) then s[i] else '.')
  }

  /** Firmware text inside a comment; an unterminated array says so. */
  function CommentText(s: string): (r: string)
    ensures Printable(r) && |r| <= |s| + 14
  {
    if Terminated(s) then Dots(CString(s)) else Dots(s) + "<unterminated>"
  }

  // ------------------------------------------------------------------ the text

  /** The comment mark of a line that is not an active selection. */
  function Mark(active: bool): string {
    if active then "" else "# "
  }

  function YesNo(b: bool): string {
    if b then "yes" else "no"
  }

  function HeadText(name: string, index: nat, active: bool): string {
    name + Dec(index + 1) + (if active then " - selected" else "")
  }

  function IdentityText(d: Display): string {
    "# PCI identity: " + Hex(d.vendor, 4) + ":" + Hex(d.deviceId, 4) +
    " subsystem " + Hex(d.subsystemVendor, 4) + ":" + Hex(d.subsystemDevice, 4)
  }

  function GopText(d: Display): string {
    "# GOP association: " + (if !d.gopKnown then "unknown (ranked conservatively)" else YesNo(d.gop))
  }

  function OwnerText(d: Display): string {
    "# Active legacy VGA owner: " +
    (if !d.ownerKnown then "unknown (ranked conservatively as active)" else YesNo(d.owner))
  }

  function ExposedText(d: Display): string {
    "# Option ROM exposed: " + YesNo(d.romExposed)
  }

  function AcceptedText(d: Display): string {
    "# Valid legacy x86 ROM: " + YesNo(d.romAccepted)
  }

  function DiscoveredText(d: Display): string {
    "# Upstream path discovered: " + YesNo(d.pathDiscovered)
  }

  function ValidatedText(d: Display): string {
    "# Upstream path validation: " + (if d.pathValidated then "passed" else "failed")
  }

  function DisplayLines(d: Display, index: nat, active: bool): seq<string> {
    [ HeadText("# Display candidate ", index, active), IdentityText(d), GopText(d), OwnerText(d), ExposedText(d),
      AcceptedText(d), DiscoveredText(d), ValidatedText(d), DisplayAddressLine(d, active), "" ]
  }

  function DisplayAddressLine(d: Display, active: bool): string {
    if d.addressValid then Mark(active) + "TargetPci=" + Bdf(d.address)
    else "# PCI location unavailable: segment=0x" + Hex(d.rawSegment, 16) + " bus=0x" + Hex(d.rawBus, 16) +
         " device=0x" + Hex(d.rawDevice, 16) + " function=0x" + Hex(d.rawFunction, 16) + "; no TargetPci emitted"
  }

  function DiskText(description: string): string {
    if IsRepresentable(CString(description)) then Encode(CString(description)) else CommentText(description)
  }

  function DiskLineText(s: Storage, active: bool): string {
    Mark(active) + "TargetBbsDescription=" + DiskText(s.description)
  }

  function StorageLines(s: Storage, index: nat, active: bool): seq<string> {
    [ HeadText("# Storage candidate ", index, active),
      "# Manufacturer: " + CommentText(s.manufacturer),
      "# Model: " + CommentText(s.description),
      "# BBS index: " + Dec(s.bbsIndex),
      "# Controller type: " + (if s.usb then "USB" else "non-USB"),
      StorageAddressLine(s, active), DiskLineText(s, active), "" ]
  }

  function StorageAddressLine(s: Storage, active: bool): string {
    if s.addressValid then Mark(active) + "TargetControllerPci=" + Bdf(s.address)
    else "# Invalid BBS PCI location: bus=0x" + Hex(s.rawBus, 8) + " device=0x" + Hex(s.rawDevice, 8) +
         " function=0x" + Hex(s.rawFunction, 8)
  }

  // Long lines in two parts: facts about all their characters are proved part by part.
  const GENERATED_LINE: string := "# Generated by Native CSM VGA " + "Selector 1.2 read-only discovery."
  const SELECTED_LINE: string := "# One display and one storage " + "candidate are selected below."
  const ANOTHER_LINE: string := "# To select another candidate, " + "comment the active setting and"
  const UNCOMMENT_LINE: string := "# uncomment the desired setting."
  const PROBE_ONLY_LINE: string := "# This Probe-only result is " + "not boot-ready because at least one"
  const CATEGORY_LINE: string := "# candidate category has no " + "eligible automatic selection."

  function Comments(complete: bool): seq<string> {
    if complete then [GENERATED_LINE, SELECTED_LINE, ANOTHER_LINE, UNCOMMENT_LINE, ""]
    else [GENERATED_LINE, PROBE_ONLY_LINE, CATEGORY_LINE, ""]
  }

  const FIXED_LINES: seq<string> := [ "[Marker]", "Enabled=false", "", "[Behavior]", "Probe=false", "", "[Video]" ]

  const ENDPOINT_LINES: seq<string> :=
    [ "[Endpoint]", "IoDecoding=On", "MemoryDecoding=On", "BusMastering=Ignore", "", "[Boot]" ]

  /** The blocks of the first k displays; sel is the active one. */
  function DisplayBlocks(displays: seq<Display>, sel: Option<nat>, k: nat): seq<string>
    requires k <= |displays|
  {
    if k == 0 then []
    else DisplayBlocks(displays, sel, k - 1) + DisplayLines(displays[k - 1], k - 1, sel == Some(k - 1))
  }

  function StorageBlocks(storage: seq<Storage>, sel: Option<nat>, k: nat): seq<string>
    requires k <= |storage|
  {
    if k == 0 then []
    else StorageBlocks(storage, sel, k - 1) + StorageLines(storage[k - 1], k - 1, sel == Some(k - 1))
  }

  function Active(complete: bool, sel: Option<nat>): Option<nat> {
    if complete then sel else None
  }

  function IniLinesOf(displays: seq<Display>, sd: Option<nat>, storage: seq<Storage>, ss: Option<nat>): seq<string> {
    var complete := sd.Some? && ss.Some?;
    Comments(complete) + FIXED_LINES + DisplayBlocks(displays, Active(complete, sd), |displays|) +
    ENDPOINT_LINES + StorageBlocks(storage, Active(complete, ss), |storage|)
  }

  /** Every line with its line ending. */
  function Join(lines: seq<string>): string {
    if lines == [] then "" else Join(lines[..|lines| - 1]) + lines[|lines| - 1] + "\r\n"
  }

  lemma {:induction false} JoinConcat(a: seq<string>, b: seq<string>)
    ensures Join(a + b) == Join(a) + Join(b)
  {
    if b == [] {
      assert a + b == a;
    } else {
      var init, last := b[..|b| - 1], b[|b| - 1];
      assert (a + b)[..|a + b| - 1] == a + init;
      JoinConcat(a, init);
      assert Join(a) + Join(init) + last + "\r\n" == Join(a) + (Join(init) + last + "\r\n");
    }
  }

  // -------------------------------------------------------------------- selections

  ghost predicate SelectsExactly(flags: seq<bool>, sel: Option<nat>) {
    forall i :: 0 <= i < |flags| ==> flags[i] == (sel == Some(i))
  }

  function DisplayFlags(displays: seq<Display>): (r: seq<bool>)
    ensures |r| == |displays| && forall i :: 0 <= i < |r| ==> r[i] == displays[i].selected
  {
    seq(|displays|, i requires 0 <= i < |displays| => displays[i].selected)
  }

  function StorageFlags(storage: seq<Storage>): (r: seq<bool>)
    ensures |r| == |storage| && forall i :: 0 <= i < |r| ==> r[i] == storage[i].selected
  {
    seq(|storage|, i requires 0 <= i < |storage| => storage[i].selected)
  }

  ghost predicate ValidSelections(displays: seq<Display>, sd: Option<nat>, storage: seq<Storage>, ss: Option<nat>) {
    && |displays| <= MAX_DISPLAYS && |storage| <= MAX_STORAGE
    && (sd.Some? ==> sd.value < |displays|) && (ss.Some? ==> ss.value < |storage|)
    && SelectsExactly(DisplayFlags(displays), sd) && SelectsExactly(StorageFlags(storage), ss)
    && (sd.Some? ==> displays[sd.value].eligible && displays[sd.value].addressValid)
    && (ss.Some? ==> storage[ss.value].eligible && storage[ss.value].addressValid &&
                     Representable(CString(storage[ss.value].description)))
  }
}
