/** The bounded text buffer, the disk-name encoder and the formatter as the
    code runs them: character by character, failing when the buffer is full. */
module IniWriter {
  import opened Basics
  import opened IniText
  import opened IniParser
  import opened IniLines
  import opened IniFormat
  import opened IniFormatMeaning

  // ------------------------------------------------------------- representability

  predicate Blank(s: string) {
    forall i :: 0 <= i < |s| ==> s[i] == ' '
  }

  lemma {:induction false} CStringPrefix(s: string, k: nat)
    requires k <= |s| && NUL !in s[..k]
    ensures k < |s| && s[k] == NUL ==> CString(s) == s[..k]
    ensures k <= |CString(s)| && CString(s)[..k] == s[..k]
  {
    if k > 0 {
      assert s[0] == s[..k][0];
      assert s[1..][..k - 1] == s[..k][1..];
      CStringPrefix(s[1..], k - 1);
      assert s[..k] == [s[0]] + s[1..][..k - 1];
    }
  }

  /** The scan of a character array of at least 65 bytes. */
  method IsExactlyRepresentable(value: string, capacity: nat) returns (r: bool)
    requires TEXT_BYTES <= capacity <= |value|
    ensures r <==> Representable(CString(value))
  {
    var hasNonSpace := false;
    for index := 0 to capacity
      invariant NUL !in value[..index] && Printable(value[..index]) && '=' !in value[..index]
      invariant hasNonSpace <==> !Blank(value[..index])
    {
      CStringPrefix(value, index);
      ghost var seen := value[..index];
      var character := value[index];
      if character == NUL {
        if index == 0 || index >= TEXT_BYTES {
          return false;
        }
        return hasNonSpace;
      }
      assert value[..index + 1] == seen + [character];
      if !IsPrintable(character) || character == '=' {
        CStringPrefix(value, index + 1);
        assert CString(value)[..index + 1][index] == character;
        return false;
      }
      hasNonSpace := hasNonSpace || character != ' ';
      assert hasNonSpace <==> !Blank(seen + [character]) by {
        BlankPush(seen, character);
      }
    }
    CStringPrefix(value, capacity);
    r := false;
  }

  lemma BlankPush(s: string, c: char)
    ensures Blank(s + [c]) <==> Blank(s) && c == ' '
  {
    var t := s + [c];
    assert t[|s|] == c;
    assert forall i :: 0 <= i < |s| ==> t[i] == s[i];
  }

  // ---------------------------------------------------------------------- pieces

  function Power16(k: nat): (r: nat)
    ensures r > 0
  {
    if k == 0 then 1 else 16 * Power16(k - 1)
  }

  /** Each digit of a hexadecimal number is a shifted and masked quotient. */
  lemma {:induction false} HexAt(value: nat, digits: nat, k: nat)
    requires k < digits
    ensures Hex(value, digits)[k] == HexChar(value / Power16(digits - k - 1) % 16, true)
  {
    if k < digits - 1 {
      HexAt(value / 16, digits - 1, k);
      DivideTwice(value, Power16(digits - k - 2));
    }
  }

  lemma DivideTwice(value: nat, p: nat)
    requires p > 0
    ensures value / 16 / p == value / (16 * p)
  {
    var q, r := value / 16 / p, value / 16 % p;
    assert value / 16 == q * p + r;
    assert value == 16 * (q * p + r) + value % 16;
    assert value == q * (16 * p) + (16 * r + value % 16);
    QuotientIs(value, 16 * p, q, 16 * r + value % 16);
  }

  lemma QuotientIs(n: nat, d: nat, q: nat, r: nat)
    requires d > 0 && n == q * d + r && r < d
    ensures n / d == q
  {
    var e := n / d;
    assert n == e * d + n % d;
    assert (e - q) * d == r - n % d && (q - e) * d == n % d - r;
    AtLeastOnce(e - q, d);
    AtLeastOnce(q - e, d);
  }

  lemma AtLeastOnce(k: int, d: nat)
    ensures k >= 1 ==> k * d >= d
  {
    if k >= 1 {
      assert k * d == d + (k - 1) * d;
    }
  }

  /** Decimal digits with nothing for zero. */
  function Digits(n: nat): string {
    if n == 0 then "" else Dec(n)
  }

  function Backwards(s: string): string {
    if s == "" then "" else Backwards(s[1..]) + [s[0]]
  }

  lemma {:induction false} BackwardsPush(s: string, c: char)
    ensures Backwards(s + [c]) == [c] + Backwards(s)
  {
    if s != "" {
      assert (s + [c])[1..] == s[1..] + [c];
      BackwardsPush(s[1..], c);
    }
  }

  // ------------------------------------------------------------------ the buffer

  lemma DotsPush(before: string, source: string, index: nat)
    requires index < |source|
    ensures before + Dots(source[..index + 1]) ==
            before + Dots(source[..index]) + [if IsPrintable(source[index]) then source[index] else '.']
  {
    assert source[..index + 1] == source[..index] + [source[index]];
  }

  lemma DotsStart(before: string, source: string)
    ensures before + Dots(source[..0]) == before
  {
  }

  /** Where the scan of a comment text stops. */
  lemma CommentStops(before: string, source: string, index: nat)
    requires index <= |source| && NUL !in source[..index]
    ensures index < |source| && source[index] == NUL ==> CommentText(source) == Dots(source[..index])
    ensures index == |source| ==>
              before + CommentText(source) == before + Dots(source[..index]) + "<unterminated>"
  {
    CStringPrefix(source, index);
    if index == |source| {
      assert source[..index] == source;
    }
  }

  lemma BackwardsLast(before: string, init: string, last: char)
    ensures before + Backwards(init + [last]) == before + [last] + Backwards(init)
  {
    hide Backwards;
    BackwardsPush(init, last);
    Assoc(before, [last], Backwards(init));
  }

  lemma Assoc(a: string, b: string, c: string)
    ensures a + (b + c) == a + b + c
  {
  }

  lemma BackwardsEmpty()
    ensures Backwards("") == ""
  {
  }

  /** The digit loop; its 24-byte buffer is large enough for any 64-bit number. */
  method DecimalDigits(number: nat) returns (buffer: string)
    requires 0 < number < 0x1_0000_0000_0000_0000
    ensures Backwards(buffer) == Dec(number)
  {
    var value := number;
    buffer := "";
    DecLengths(number);
    while value != 0 && |buffer| < 24
      invariant Dec(number) == Digits(value) + Backwards(buffer)
      invariant |Digits(value)| + |buffer| <= 20
    {
      BackwardsPush(buffer, DecChar(value % 10));
      assert Digits(value) == Digits(value / 10) + [DecChar(value % 10)];
      buffer := buffer + [DecChar(value % 10)];
      value := value / 10;
    }
  }

  class TextBuffer {
    const capacity: nat
    var data: string
    var failed: bool
    /** Everything the caller asked to write. */
    ghost var wanted: string

    /** The buffer holds as much as fits before the terminator, and has failed
        exactly when something did not fit. */
    ghost predicate Valid()
      reads this
    {
      && capacity > 0
      && data == (if |wanted| < capacity then wanted else wanted[..capacity - 1])
      && (failed <==> |wanted| >= capacity)
    }

    constructor (size: nat)
      requires size > 0
      ensures Valid() && wanted == "" && capacity == size
    {
      capacity := size;
      data := "";
      failed := false;
      wanted := "";
    }

    method PutChar(c: char)
      requires Valid()
      modifies this
      ensures Valid() && wanted == old(wanted) + [c]
    {
      wanted := wanted + [c];
      if |data| + 1 >= capacity {
        failed := true;
        return;
      }
      data := data + [c];
    }

    method PutText(source: string)
      requires Valid()
      modifies this
      ensures Valid() && wanted == old(wanted) + source
    {
      for index := 0 to |source|
        invariant Valid() && wanted == old(wanted) + source[..index]
      {
        PutChar(source[index]);
        assert source[..index + 1] == source[..index] + [source[index]];
      }
      assert source[..|source|] == source;
    }

    method PutCommentText(source: string)
      requires Valid()
      modifies this
      ensures Valid() && wanted == old(wanted) + CommentText(source)
    {
      hide Valid, Dots, CString, CommentText;
      DotsStart(wanted, source);
      for index := 0 to |source|
        invariant NUL !in source[..index]
        invariant Valid() && wanted == old(wanted) + Dots(source[..index])
      {
        var value := source[index];
        if value == NUL {
          CommentStops(old(wanted), source, index);
          return;
        }
        DotsPush(old(wanted), source, index);
        PutChar(if IsPrintable(value) then value else '.');
        assert source[..index + 1] == source[..index] + [value];
      }
      CommentStops(old(wanted), source, |source|);
      PutText("<unterminated>");
    }

    method PutHex(value: nat, digits: nat)
      requires Valid()
      modifies this
      ensures Valid() && wanted == old(wanted) + Hex(value, digits)
    {
      for index := 0 to digits
        invariant Valid() && wanted == old(wanted) + Hex(value, digits)[..index]
      {
        HexAt(value, digits, index);
        var shifted := value / Power16(digits - index - 1);
        PutChar(HexChar(shifted % 16, true));
      }
      assert Hex(value, digits)[..digits] == Hex(value, digits);
    }

    method PutDec(number: nat)
      requires Valid() && number < 0x1_0000_0000_0000_0000
      modifies this
      ensures Valid() && wanted == old(wanted) + Dec(number)
    {
      if number == 0 {
        PutChar('0');
        return;
      }
      var buffer := DecimalDigits(number);
      hide Valid, Dec, Backwards;
      BackwardsEmpty();
      while buffer != ""
        invariant Valid() && wanted + Backwards(buffer) == old(wanted) + Dec(number)
        decreases |buffer|
      {
        var count := |buffer| - 1;
        BackwardsLast(wanted, buffer[..count], buffer[count]);
        assert buffer[..count] + [buffer[count]] == buffer;
        PutChar(buffer[count]);
        buffer := buffer[..count];
      }
    }
  }

  /** One more piece of the line that was begun at `before`. */
  method AddText(text: TextBuffer, ghost before: string, ghost line: string, piece: string)
    returns (ghost more: string)
    requires text.Valid() && text.wanted == before + line
    modifies text
    ensures text.Valid() && more == line + piece && text.wanted == before + more
  {
    hide TextBuffer.Valid;
    text.PutText(piece);
    more := line + piece;
    Assoc(before, line, piece);
  }

  method AddHex(text: TextBuffer, ghost before: string, ghost line: string, value: nat, digits: nat)
    returns (ghost more: string)
    requires text.Valid() && text.wanted == before + line
    modifies text
    ensures text.Valid() && more == line + Hex(value, digits) && text.wanted == before + more
  {
    hide TextBuffer.Valid, Hex;
    text.PutHex(value, digits);
    more := line + Hex(value, digits);
    Assoc(before, line, Hex(value, digits));
  }

  method PutBdf(text: TextBuffer, a: Address)
    requires text.Valid()
    modifies text
    ensures text.Valid() && text.wanted == old(text.wanted) + Bdf(a)
  {
    hide TextBuffer.Valid, Hex;
    ghost var before := text.wanted;
    text.PutHex(a.segment, 4);
    ghost var line := AddText(text, before, Hex(a.segment, 4), ":");
    line := AddHex(text, before, line, a.bus, 2);
    line := AddText(text, before, line, ":");
    line := AddHex(text, before, line, a.device, 2);
    line := AddText(text, before, line, ".");
    line := AddHex(text, before, line, a.func, 1);
  }

  // ----------------------------------------------------------------- the encoder

  datatype Outcome = Success(text: string) | Rejected | BufferTooSmall

  lemma {:induction false} EscapePush(s: string, c: char)
    ensures Escape(s + [c]) == Escape(s) + (if c == '"' || c == '\\' then ['\\', c] else [c])
  {
    if s == "" {
      assert [c][1..] == "";
      assert Escape("") == "";
    } else {
      assert (s + [c])[1..] == s[1..] + [c];
      EscapePush(s[1..], c);
    }
  }

  /** A disk name out of its character array, encoded into a bounded buffer. */
  method EncodeDiskDescription(value: string, capacity: nat) returns (r: Outcome)
    requires |value| >= TEXT_BYTES
    ensures r.Rejected? <==> capacity == 0 || !Representable(CString(value))
    ensures r.Success? ==> r.text == Encode(CString(value))
    ensures r.BufferTooSmall? ==> capacity <= |Encode(CString(value))|
    ensures r.Success? ==> |r.text| < capacity
    ensures capacity >= ENCODED_BYTES && Representable(CString(value)) ==> r == Success(Encode(CString(value)))
  {
    if capacity == 0 {
      return Rejected;
    }
    var representable := IsExactlyRepresentable(value, TEXT_BYTES);
    if !representable {
      return Rejected;
    }
    var name := CString(value);
    EncodeShape(name);
    hide Representable, CString;
    var text := new TextBuffer(capacity);
    WriteEncoded(text, name);
    if text.failed {
      return BufferTooSmall;
    }
    return Success(text.data);
  }

  method WriteEncoded(text: TextBuffer, name: string)
    requires text.Valid() && name != ""
    modifies text
    ensures text.Valid() && text.wanted == old(text.wanted) + Encode(name)
  {
    hide TextBuffer.Valid, Escape;
    var quoted := name[0] == ' ' || name[0] == '"' || name[|name| - 1] == ' ';
    if !quoted {
      WriteBody(text, name, false);
      return;
    }
    ghost var before := text.wanted;
    text.PutChar('"');
    WriteBody(text, name, true);
    text.PutChar('"');
    Assoc(before, "\"", Escape(name));
    Assoc(before, "\"" + Escape(name), "\"");
  }

  method WriteBody(text: TextBuffer, name: string, quoted: bool)
    requires text.Valid()
    modifies text
    ensures text.Valid() && text.wanted == old(text.wanted) + (if quoted then Escape(name) else name)
  {
    hide TextBuffer.Valid;
    for index := 0 to |name|
      invariant text.Valid()
      invariant text.wanted == old(text.wanted) + (if quoted then Escape(name[..index]) else name[..index])
    {
      assert name[..index + 1] == name[..index] + [name[index]];
      EscapePush(name[..index], name[index]);
      WriteEscaped(text, name[index], quoted);
    }
    assert name[..|name|] == name;
  }

  method WriteEscaped(text: TextBuffer, c: char, quoted: bool)
    requires text.Valid()
    modifies text
    ensures text.Valid()
    ensures text.wanted == old(text.wanted) + (if quoted && (c == '"' || c == '\\') then ['\\', c] else [c])
  {
    if quoted && (c == '"' || c == '\\') {
      text.PutChar('\\');
    }
    text.PutChar(c);
  }

  // ------------------------------------------------------------------ selections

  function CountTrue(flags: seq<bool>): nat {
    if flags == [] then 0 else CountTrue(flags[..|flags| - 1]) + (if flags[|flags| - 1] then 1 else 0)
  }

  lemma {:induction false} CountNone(flags: seq<bool>)
    ensures CountTrue(flags) == 0 <==> SelectsExactly(flags, None)
  {
    if flags != [] {
      var init := flags[..|flags| - 1];
      CountNone(init);
      assert SelectsExactly(flags, None) ==> !flags[|flags| - 1] && SelectsExactly(init, None);
    }
  }

  lemma {:induction false} CountOne(flags: seq<bool>, k: nat)
    requires k < |flags|
    ensures CountTrue(flags) == 1 && flags[k] <==> SelectsExactly(flags, Some(k))
  {
    var init, last := flags[..|flags| - 1], flags[|flags| - 1];
    assert flags == init + [last];
    if k == |flags| - 1 {
      CountNone(init);
      assert SelectsExactly(flags, Some(k)) <==> last && SelectsExactly(init, None);
    } else {
      CountOne(init, k);
      CountNone(init);
      if init[k] {
        assert !SelectsExactly(init, None);
      }
      assert SelectsExactly(flags, Some(k)) <==> !last && SelectsExactly(init, Some(k));
    }
  }

  method CountSelected(flags: seq<bool>) returns (n: nat)
    ensures n == CountTrue(flags)
  {
    n := 0;
    for index := 0 to |flags|
      invariant n == CountTrue(flags[..index])
    {
      assert flags[..index + 1][..index] == flags[..index];
      if flags[index] {
        n := n + 1;
      }
    }
    assert flags[..|flags|] == flags;
  }

  /** Counting the selected rows decides whether exactly the named row is selected. */
  method SelectionMatches(flags: seq<bool>, sel: Option<nat>) returns (ok: bool)
    requires sel.Some? ==> sel.value < |flags|
    ensures ok <==> SelectsExactly(flags, sel)
  {
    var selections := CountSelected(flags);
    match sel
    case None =>
      CountNone(flags);
      ok := selections == 0;
    case Some(k) =>
      CountOne(flags, k);
      ok := selections == 1 && flags[k];
  }

  method ValidateSelections(displays: seq<Display>, sd: Option<nat>, storage: seq<Storage>, ss: Option<nat>)
    returns (ok: bool)
    requires forall s :: s in storage ==> s.Valid()
    ensures ok <==> ValidSelections(displays, sd, storage, ss)
  {
    if |displays| > MAX_DISPLAYS || |storage| > MAX_STORAGE ||
       (sd.Some? && sd.value >= |displays|) || (ss.Some? && ss.value >= |storage|) {
      return false;
    }
    hide SelectsExactly, Representable, CString;
    var displayOk := SelectionMatches(DisplayFlags(displays), sd);
    var storageOk := SelectionMatches(StorageFlags(storage), ss);
    if !displayOk || !storageOk || (sd.Some? && !(displays[sd.value].eligible && displays[sd.value].addressValid)) {
      return false;
    }
    if ss.None? {
      return true;
    }
    var s := storage[ss.value];
    assert s in storage;
    if !s.eligible || !s.addressValid {
      return false;
    }
    ok := IsExactlyRepresentable(s.description, STRING_BYTES);
  }

  // --------------------------------------------------------------- the formatter

  lemma JoinOne(before: string, lines: seq<string>, line: string)
    ensures before + Join(lines + [line]) == before + Join(lines) + line + "\r\n"
  {
    assert (lines + [line])[..|lines|] == lines;
  }

  lemma JoinNothing(before: string)
    ensures before + Join([]) == before
  {
  }

  /** End the open line; what was written since `before` is a list of lines again. */
  method EndLine(text: TextBuffer, ghost before: string, ghost lines: seq<string>, ghost line: string)
    returns (ghost more: seq<string>)
    requires text.Valid() && text.wanted == before + Join(lines) + line
    modifies text
    ensures text.Valid() && more == lines + [line] && text.wanted == before + Join(more)
  {
    JoinOne(before, lines, line);
    hide Join;
    text.PutText("\r\n");
    more := lines + [line];
  }

  method PutTwo(text: TextBuffer, caption: string, value: string)
    requires text.Valid()
    modifies text
    ensures text.Valid() && text.wanted == old(text.wanted) + (caption + value)
  {
    hide TextBuffer.Valid;
    text.PutText(caption);
    text.PutText(value);
    Assoc(old(text.wanted), caption, value);
  }

  method PutLines(text: TextBuffer, lines: seq<string>)
    requires text.Valid()
    modifies text
    ensures text.Valid() && text.wanted == old(text.wanted) + Join(lines)
  {
    hide TextBuffer.Valid, Join;
    ghost var before := text.wanted;
    JoinNothing(before);
    for index := 0 to |lines|
      invariant text.Valid() && text.wanted == before + Join(lines[..index])
    {
      text.PutText(lines[index]);
      ghost var more := EndLine(text, before, lines[..index], lines[index]);
      assert lines[..index + 1] == lines[..index] + [lines[index]];
    }
    assert lines[..|lines|] == lines;
  }

  method PutHead(text: TextBuffer, name: string, index: nat, active: bool)
    requires text.Valid() && index < MAX_STORAGE
    modifies text
    ensures text.Valid() && text.wanted == old(text.wanted) + HeadText(name, index, active)
  {
    hide TextBuffer.Valid, Dec;
    text.PutText(name);
    text.PutDec(index + 1);
    if active {
      text.PutText(" - selected");
    }
  }

  method PutIdentity(text: TextBuffer, d: Display)
    requires text.Valid()
    modifies text
    ensures text.Valid() && text.wanted == old(text.wanted) + IdentityText(d)
  {
    hide TextBuffer.Valid, Hex;
    ghost var before := text.wanted;
    text.PutText("# PCI identity: ");
    ghost var line := AddHex(text, before, "# PCI identity: ", d.vendor, 4);
    line := AddText(text, before, line, ":");
    line := AddHex(text, before, line, d.deviceId, 4);
    line := AddText(text, before, line, " subsystem ");
    line := AddHex(text, before, line, d.subsystemVendor, 4);
    line := AddText(text, before, line, ":");
    line := AddHex(text, before, line, d.subsystemDevice, 4);
  }

  method PutMarkedAddress(text: TextBuffer, active: bool, key: string, address: Address)
    requires text.Valid()
    modifies text
    ensures text.Valid() && text.wanted == old(text.wanted) + (Mark(active) + key + Bdf(address))
  {
    hide TextBuffer.Valid, Bdf;
    if !active {
      text.PutText("# ");
    }
    text.PutText(key);
    PutBdf(text, address);
  }

  method PutDisplayAddress(text: TextBuffer, d: Display, active: bool)
    requires text.Valid()
    modifies text
    ensures text.Valid() && text.wanted == old(text.wanted) + DisplayAddressLine(d, active)
  {
    hide TextBuffer.Valid, Bdf, Hex;
    if d.addressValid {
      PutMarkedAddress(text, active, "TargetPci=", d.address);
    } else {
      PutRawDisplay(text, d);
    }
  }

  method PutRawDisplay(text: TextBuffer, d: Display)
    requires text.Valid() && !d.addressValid
    modifies text
    ensures text.Valid() && text.wanted == old(text.wanted) + DisplayAddressLine(d, false)
    ensures DisplayAddressLine(d, true) == DisplayAddressLine(d, false)
  {
    hide TextBuffer.Valid, Hex;
    ghost var before := text.wanted;
    text.PutText("# PCI location unavailable: segment=0x");
    ghost var line := AddHex(text, before, "# PCI location unavailable: segment=0x", d.rawSegment, 16);
    line := AddText(text, before, line, " bus=0x");
    line := AddHex(text, before, line, d.rawBus, 16);
    line := AddText(text, before, line, " device=0x");
    line := AddHex(text, before, line, d.rawDevice, 16);
    line := AddText(text, before, line, " function=0x");
    line := AddHex(text, before, line, d.rawFunction, 16);
    line := AddText(text, before, line, "; no TargetPci emitted");
  }

  method PutStorageAddress(text: TextBuffer, s: Storage, active: bool)
    requires text.Valid()
    modifies text
    ensures text.Valid() && text.wanted == old(text.wanted) + StorageAddressLine(s, active)
  {
    hide TextBuffer.Valid, Bdf, Hex;
    if s.addressValid {
      PutMarkedAddress(text, active, "TargetControllerPci=", s.address);
    } else {
      ghost var before := text.wanted;
      text.PutText("# Invalid BBS PCI location: bus=0x");
      ghost var line := AddHex(text, before, "# Invalid BBS PCI location: bus=0x", s.rawBus, 8);
      line := AddText(text, before, line, " device=0x");
      line := AddHex(text, before, line, s.rawDevice, 8);
      line := AddText(text, before, line, " function=0x");
      line := AddHex(text, before, line, s.rawFunction, 8);
    }
  }

  /** A caption and a value as one line. */
  method PutPairLine(text: TextBuffer, ghost before: string, ghost lines: seq<string>, caption: string, value: string)
    returns (ghost more: seq<string>)
    requires text.Valid() && text.wanted == before + Join(lines)
    modifies text
    ensures text.Valid() && more == lines + [caption + value] && text.wanted == before + Join(more)
  {
    hide TextBuffer.Valid, Join;
    PutTwo(text, caption, value);
    more := EndLine(text, before, lines, caption + value);
  }

  /** The identity and ranking lines of a display block. */
  method PutRankFacts(text: TextBuffer, d: Display, ghost before: string, ghost lines: seq<string>)
    returns (ghost more: seq<string>)
    requires text.Valid() && text.wanted == before + Join(lines)
    modifies text
    ensures text.Valid() && text.wanted == before + Join(more)
    ensures more == lines + [IdentityText(d)] + [GopText(d)] + [OwnerText(d)]
  {
    hide TextBuffer.Valid, Join, IdentityText, YesNo;
    PutIdentity(text, d);
    more := EndLine(text, before, lines, IdentityText(d));
    more := PutPairLine(text, before, more, "# GOP association: ",
                        if !d.gopKnown then "unknown (ranked conservatively)" else YesNo(d.gop));
    more := PutPairLine(text, before, more, "# Active legacy VGA owner: ",
                        if !d.ownerKnown then "unknown (ranked conservatively as active)" else YesNo(d.owner));
  }

  /** The ROM and path lines of a display block. */
  method PutRomFacts(text: TextBuffer, d: Display, ghost before: string, ghost lines: seq<string>)
    returns (ghost more: seq<string>)
    requires text.Valid() && text.wanted == before + Join(lines)
    modifies text
    ensures text.Valid() && text.wanted == before + Join(more)
    ensures more == lines + [ExposedText(d)] + [AcceptedText(d)] + [DiscoveredText(d)] + [ValidatedText(d)]
  {
    hide TextBuffer.Valid, Join, YesNo;
    more := PutPairLine(text, before, lines, "# Option ROM exposed: ", YesNo(d.romExposed));
    more := PutPairLine(text, before, more, "# Valid legacy x86 ROM: ", YesNo(d.romAccepted));
    more := PutPairLine(text, before, more, "# Upstream path discovered: ", YesNo(d.pathDiscovered));
    more := PutPairLine(text, before, more, "# Upstream path validation: ",
                        if d.pathValidated then "passed" else "failed");
  }

  method PutDisplay(text: TextBuffer, d: Display, index: nat, active: bool)
    requires text.Valid() && index < MAX_DISPLAYS
    modifies text
    ensures text.Valid() && text.wanted == old(text.wanted) + Join(DisplayLines(d, index, active))
  {
    hide TextBuffer.Valid, Join, HeadText, IdentityText, GopText, OwnerText;
    hide ExposedText, AcceptedText, DiscoveredText, ValidatedText, DisplayAddressLine;
    ghost var before := text.wanted;
    JoinNothing(before);
    PutHead(text, "# Display candidate ", index, active);
    ghost var lines := EndLine(text, before, [], HeadText("# Display candidate ", index, active));
    lines := PutRankFacts(text, d, before, lines);
    lines := PutRomFacts(text, d, before, lines);
    PutDisplayAddress(text, d, active);
    lines := EndLine(text, before, lines, DisplayAddressLine(d, active));
    lines := EndLine(text, before, lines, "");
    assert lines == DisplayLines(d, index, active);
  }

  /** The encoded name, or a diagnostic copy of a name that has no encoding. */
  method PutDiskValue(text: TextBuffer, description: string)
    requires text.Valid() && |description| == STRING_BYTES
    modifies text
    ensures text.Valid() && text.wanted == old(text.wanted) + DiskText(description)
  {
    hide TextBuffer.Valid, Representable, CString, Encode, CommentText;
    var encoded := EncodeDiskDescription(description, ENCODED_BYTES);
    if encoded.Success? {
      text.PutText(encoded.text);
    } else {
      text.PutCommentText(description);
    }
  }

  method PutDiskName(text: TextBuffer, s: Storage, active: bool)
    requires text.Valid() && s.Valid()
    modifies text
    ensures text.Valid() && text.wanted == old(text.wanted) + DiskLineText(s, active)
  {
    hide TextBuffer.Valid, DiskText, Mark;
    ghost var before := text.wanted;
    text.PutText(Mark(active));
    ghost var line := AddText(text, before, Mark(active), "TargetBbsDescription=");
    PutDiskValue(text, s.description);
    Assoc(before, line, DiskText(s.description));
  }

  method PutStorage(text: TextBuffer, s: Storage, index: nat, active: bool)
    requires text.Valid() && s.Valid() && index < MAX_STORAGE
    modifies text
    ensures text.Valid() && text.wanted == old(text.wanted) + Join(StorageLines(s, index, active))
  {
    hide TextBuffer.Valid, Join, HeadText, CommentText, Dec, StorageAddressLine, DiskLineText;
    ghost var before := text.wanted;
    JoinNothing(before);
    PutHead(text, "# Storage candidate ", index, active);
    ghost var lines := EndLine(text, before, [], HeadText("# Storage candidate ", index, active));
    lines := PutStorageFacts(text, s, before, lines);
    PutStorageAddress(text, s, active);
    lines := EndLine(text, before, lines, StorageAddressLine(s, active));
    PutDiskName(text, s, active);
    lines := EndLine(text, before, lines, DiskLineText(s, active));
    lines := EndLine(text, before, lines, "");
    assert lines == StorageLines(s, index, active);
  }

  method PutLabelledText(text: TextBuffer, caption: string, source: string)
    requires text.Valid()
    modifies text
    ensures text.Valid() && text.wanted == old(text.wanted) + (caption + CommentText(source))
  {
    hide TextBuffer.Valid, CommentText;
    text.PutText(caption);
    text.PutCommentText(source);
    Assoc(old(text.wanted), caption, CommentText(source));
  }

  method PutLabelledNumber(text: TextBuffer, caption: string, number: nat)
    requires text.Valid() && number < 0x1_0000_0000_0000_0000
    modifies text
    ensures text.Valid() && text.wanted == old(text.wanted) + (caption + Dec(number))
  {
    hide TextBuffer.Valid, Dec;
    text.PutText(caption);
    text.PutDec(number);
    Assoc(old(text.wanted), caption, Dec(number));
  }

  method PutStorageFacts(text: TextBuffer, s: Storage, ghost before: string, ghost lines: seq<string>)
    returns (ghost more: seq<string>)
    requires text.Valid() && s.Valid() && text.wanted == before + Join(lines)
    modifies text
    ensures text.Valid() && text.wanted == before + Join(more)
    ensures more == lines + ["# Manufacturer: " + CommentText(s.manufacturer)] +
                    ["# Model: " + CommentText(s.description)] + ["# BBS index: " + Dec(s.bbsIndex)] +
                    ["# Controller type: " + (if s.usb then "USB" else "non-USB")]
  {
    hide TextBuffer.Valid, Join, CommentText, Dec;
    PutLabelledText(text, "# Manufacturer: ", s.manufacturer);
    more := EndLine(text, before, lines, "# Manufacturer: " + CommentText(s.manufacturer));
    PutLabelledText(text, "# Model: ", s.description);
    more := EndLine(text, before, more, "# Model: " + CommentText(s.description));
    PutLabelledNumber(text, "# BBS index: ", s.bbsIndex);
    more := EndLine(text, before, more, "# BBS index: " + Dec(s.bbsIndex));
    more := PutPairLine(text, before, more, "# Controller type: ", if s.usb then "USB" else "non-USB");
  }

  method PutDisplays(text: TextBuffer, displays: seq<Display>, sel: Option<nat>)
    requires text.Valid() && |displays| <= MAX_DISPLAYS
    modifies text
    ensures text.Valid()
    ensures text.wanted == old(text.wanted) + Join(DisplayBlocks(displays, sel, |displays|))
  {
    hide TextBuffer.Valid, Join, DisplayLines;
    ghost var before := text.wanted;
    JoinNothing(before);
    for index := 0 to |displays|
      invariant text.Valid() && text.wanted == before + Join(DisplayBlocks(displays, sel, index))
    {
      var active := sel == Some(index);
      PutDisplay(text, displays[index], index, active);
      JoinConcat(DisplayBlocks(displays, sel, index), DisplayLines(displays[index], index, active));
    }
  }

  method PutStorages(text: TextBuffer, storage: seq<Storage>, sel: Option<nat>)
    requires text.Valid() && |storage| <= MAX_STORAGE && (forall s :: s in storage ==> s.Valid())
    modifies text
    ensures text.Valid()
    ensures text.wanted == old(text.wanted) + Join(StorageBlocks(storage, sel, |storage|))
  {
    hide TextBuffer.Valid, Join, StorageLines;
    ghost var before := text.wanted;
    JoinNothing(before);
    for index := 0 to |storage|
      invariant text.Valid() && text.wanted == before + Join(StorageBlocks(storage, sel, index))
    {
      var active := sel == Some(index);
      PutStorage(text, storage[index], index, active);
      JoinConcat(StorageBlocks(storage, sel, index), StorageLines(storage[index], index, active));
    }
  }

  lemma JoinAll(a: seq<string>, b: seq<string>, c: seq<string>, d: seq<string>, e: seq<string>)
    ensures Join(a) + Join(b) + Join(c) + Join(d) + Join(e) == Join(a + b + c + d + e)
  {
    hide Join;
    JoinConcat(a + b + c + d, e);
    JoinConcat(a + b + c, d);
    JoinConcat(a + b, c);
    JoinConcat(a, b);
  }

  /** The formatter.  It rejects exactly the inconsistent selections, produces
      exactly the lines of the selection, and with the 65536 bytes its caller
      gives it never runs out of room. */
  method FormatCandidateIni(displays: seq<Display>, sd: Option<nat>, storage: seq<Storage>, ss: Option<nat>,
                            capacity: nat) returns (r: Outcome)
    requires forall s :: s in storage ==> s.Valid()
    ensures r.Rejected? <==> capacity == 0 || !ValidSelections(displays, sd, storage, ss)
    ensures r.Success? ==> r.text == Join(IniLinesOf(displays, sd, storage, ss))
    ensures !r.Rejected? ==> (r.Success? <==> |Join(IniLinesOf(displays, sd, storage, ss))| < capacity)
    ensures capacity >= INI_BYTES ==> !r.BufferTooSmall?
  {
    hide ValidSelections, IniLinesOf, Join;
    if capacity == 0 {
      return Rejected;
    }
    var ok := ValidateSelections(displays, sd, storage, ss);
    if !ok {
      return Rejected;
    }
    SelectionBounds(displays, sd, storage, ss);
    FormattedTextFits(displays, sd, storage, ss);
    var text := new TextBuffer(capacity);
    PutCandidates(text, displays, sd, storage, ss);
    if text.failed {
      return BufferTooSmall;
    }
    return Success(text.data);
  }

  lemma SelectionBounds(displays: seq<Display>, sd: Option<nat>, storage: seq<Storage>, ss: Option<nat>)
    requires ValidSelections(displays, sd, storage, ss)
    ensures |displays| <= MAX_DISPLAYS && |storage| <= MAX_STORAGE
  {
  }

  method PutCandidates(text: TextBuffer, displays: seq<Display>, sd: Option<nat>, storage: seq<Storage>,
                       ss: Option<nat>)
    requires text.Valid() && text.wanted == ""
    requires |displays| <= MAX_DISPLAYS && |storage| <= MAX_STORAGE && (forall s :: s in storage ==> s.Valid())
    modifies text
    ensures text.Valid() && text.wanted == Join(IniLinesOf(displays, sd, storage, ss))
  {
    hide TextBuffer.Valid, Join, DisplayBlocks, StorageBlocks, Comments;
    var complete := sd.Some? && ss.Some?;
    PutLines(text, Comments(complete));
    PutLines(text, FIXED_LINES);
    PutDisplays(text, displays, Active(complete, sd));
    PutLines(text, ENDPOINT_LINES);
    PutStorages(text, storage, Active(complete, ss));
    JoinAll(Comments(complete), FIXED_LINES, DisplayBlocks(displays, Active(complete, sd), |displays|),
            ENDPOINT_LINES, StorageBlocks(storage, Active(complete, ss), |storage|));
  }
}
