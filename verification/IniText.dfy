/** Characters, trimming, numbers and addresses of the configuration format.
    A byte is a character; only codes below 256 occur. */
module IniText {
  import opened Basics

  predicate IsSpace(c: char) {
    c == ' ' || c == '\t'
  }

  predicate IsPrintable(c: char) {
    ' ' <= c <= '~'
  }

  ghost predicate Printable(s: string) {
    forall i :: 0 <= i < |s| ==> IsPrintable(s[i])
  }

  // -------------------------------------------------------------------- trimming

  function TrimLeft(s: string): (r: string)
    ensures r != "" ==> !IsSpace(r[0])
  {
    if s != "" && IsSpace(s[0]) then TrimLeft(s[1..]) else s
  }

  function TrimRight(s: string): (r: string)
    ensures r != "" ==> s != "" && r[0] == s[0] && !IsSpace(r[|r| - 1])
  {
    if s != "" && IsSpace(s[|s| - 1]) then TrimRight(s[..|s| - 1]) else s
  }

  function Trim(s: string): (r: string)
    ensures r != "" ==> !IsSpace(r[0]) && !IsSpace(r[|r| - 1])
  {
    TrimRight(TrimLeft(s))
  }

  /** A string that trimming leaves alone. */
  predicate Tight(s: string) {
    s != "" && !IsSpace(s[0]) && !IsSpace(s[|s| - 1])
  }

  lemma TrimTight(s: string)
    requires s == "" || Tight(s)
    ensures Trim(s) == s
  {
  }

  // --------------------------------------------------------------------- numbers

  function HexDigit(c: char): (r: int)
    ensures -1 <= r < 16
  {
    if '0' <= c <= '9' then c as int - '0' as int
    else if 'a' <= c <= 'f' then c as int - 'a' as int + 10
    else if 'A' <= c <= 'F' then c as int - 'A' as int + 10
    else -1
  }

  function HexChar(d: nat, upper: bool): (c: char)
    requires d < 16
    ensures IsPrintable(c) && c != '=' && c != ' ' && HexDigit(c) == d
  {
    if d < 10 then ('0' as int + d) as char
    else if upper then ('A' as int + (d - 10)) as char
    else ('a' as int + (d - 10)) as char
  }

  /** The value of a digit string, or nothing if it holds a foreign character. */
  function Value(digits: string, radix: nat): Option<nat> {
    if digits == "" then Some(0)
    else
      var last := HexDigit(digits[|digits| - 1]);
      match Value(digits[..|digits| - 1], radix)
      case None => None
      case Some(v) => if 0 <= last < radix then Some(v * radix + last) else None
  }

  function NumberDigits(text: string): (string, nat) {
    if |text| >= 2 && text[0] == '0' && (text[1] == 'x' || text[1] == 'X') then (text[2..], 16) else (text, 10)
  }

  /** The number a marker setting denotes, if it is at most the maximum. */
  function Number(text: string, maximum: nat): Option<nat> {
    var (digits, radix) := NumberDigits(text);
    if digits == "" then None
    else match Value(digits, radix)
      case None => None
      case Some(v) => if v <= maximum then Some(v) else None
  }

  lemma {:induction false} ValueGrows(digits: string, k: nat, radix: nat)
    requires k <= |digits| && radix >= 1 && Value(digits, radix).Some?
    ensures Value(digits[..k], radix).Some? && Value(digits[..k], radix).value <= Value(digits, radix).value
    decreases |digits|
  {
    hide HexDigit;
    if k < |digits| {
      var init := digits[..|digits| - 1];
      assert init[..k] == digits[..k];
      ValueGrows(init, k, radix);
      ProductGrows(Value(init, radix).value, radix);
    } else {
      assert digits[..k] == digits;
    }
  }

  lemma ProductGrows(v: nat, radix: nat)
    requires radix >= 1
    ensures v * radix >= v
  {
  }

  /** The digit loop.  Its guarded multiplication never exceeds the maximum and
      rejects exactly the numbers above it. */
  method ParseNumber(text: string, maximum: nat) returns (r: Option<nat>)
    ensures r == Number(text, maximum)
  {
    if text == "" {
      return None;
    }
    var (digits, radix) := NumberDigits(text);
    if digits == "" {
      return None;
    }
    var number := 0;
    for index := 0 to |digits|
      invariant Value(digits[..index], radix) == Some(number) && number <= maximum
    {
      assert digits[..index + 1][..index] == digits[..index];
      var digit := HexDigit(digits[index]);
      if digit < 0 || digit >= radix {
        assert Value(digits[..index + 1], radix).None?;
        PrefixRejected(digits, index + 1, radix);
        return None;
      }
      if digit > maximum || number > (maximum - digit) / radix {
        Overflow(number, digit, radix, maximum);
        PrefixTooLarge(digits, index + 1, radix, maximum);
        return None;
      }
      NoOverflow(number, digit, radix, maximum);
      number := number * radix + digit;
    }
    assert digits[..|digits|] == digits;
    r := Some(number);
  }

  lemma Overflow(number: nat, digit: nat, radix: nat, maximum: nat)
    requires radix == 10 || radix == 16
    requires digit > maximum || number > (maximum - digit) / radix
    ensures number * radix + digit > maximum
  {
  }

  lemma NoOverflow(number: nat, digit: nat, radix: nat, maximum: nat)
    requires radix == 10 || radix == 16
    requires digit <= maximum && number <= (maximum - digit) / radix
    ensures number * radix + digit <= maximum
  {
  }

  lemma PrefixRejected(digits: string, k: nat, radix: nat)
    requires k <= |digits| && radix >= 1 && Value(digits[..k], radix).None?
    ensures Value(digits, radix).None?
  {
    if Value(digits, radix).Some? {
      ValueGrows(digits, k, radix);
    }
  }

  lemma PrefixTooLarge(digits: string, k: nat, radix: nat, maximum: nat)
    requires k <= |digits| && radix >= 1
    requires Value(digits[..k], radix).Some? && Value(digits[..k], radix).value > maximum
    ensures Value(digits, radix).None? || Value(digits, radix).value > maximum
  {
    if Value(digits, radix).Some? {
      ValueGrows(digits, k, radix);
    }
  }

  // ------------------------------------------------------------------- addresses

  datatype Address = Address(segment: nat, bus: nat, device: nat, func: nat)

  /** An address the format can express: 16-bit segment, 8-bit bus, device at
      most 31, function at most 7. */
  predicate ValidAddress(a: Address) {
    a.segment < 0x1_0000 && a.bus < 0x100 && a.device <= 31 && a.func <= 7
  }

  function FormatAddress(a: Address, upper: bool): (s: string)
    requires a.segment < 0x1_0000 && a.bus < 0x100 && a.device < 0x100 && a.func < 16
    ensures |s| == 12 && Printable(s) && Tight(s) && forall i :: 0 <= i < 12 ==> s[i] != '='
  {
    [HexChar(a.segment / 0x1000, upper), HexChar(a.segment / 0x100 % 16, upper),
     HexChar(a.segment / 0x10 % 16, upper), HexChar(a.segment % 16, upper), ':',
     HexChar(a.bus / 16, upper), HexChar(a.bus % 16, upper), ':',
     HexChar(a.device / 16, upper), HexChar(a.device % 16, upper), '.',
     HexChar(a.func, upper)]
  }

  /** An address as the source's record holds it: 16-bit segment, 8-bit bus, device
      and function. */
  predicate AddressFields(a: Address) {
    a.segment < 0x1_0000 && a.bus < 0x100 && a.device < 0x100 && a.func < 0x100
  }

  /** The address as the save prints it; a wide function takes a second digit. */
  function PrintAddress(a: Address): (s: string)
    requires AddressFields(a)
    ensures ValidAddress(a) ==> s == FormatAddress(a, false)
  {
    if a.func < 16 then FormatAddress(a, false)
    else FormatAddress(a.(func := a.func / 16), false) + [HexChar(a.func % 16, false)]
  }

  function ParseAddress(s: string): Option<Address> {
    if |s| != 12 || s[4] != ':' || s[7] != ':' || s[10] != '.' then None
    else if exists i :: 0 <= i < 12 && i != 4 && i != 7 && i != 10 && HexDigit(s[i]) < 0 then None
    else
      var segment := HexDigit(s[0]) * 0x1000 + HexDigit(s[1]) * 0x100 + HexDigit(s[2]) * 0x10 + HexDigit(s[3]);
      var bus := HexDigit(s[5]) * 16 + HexDigit(s[6]);
      var device := HexDigit(s[8]) * 16 + HexDigit(s[9]);
      var func := HexDigit(s[11]);
      if device > 31 || func > 7 then None else Some(Address(segment, bus, device, func))
  }

  /** Printing and parsing an address undo each other, in either letter case. */
  lemma AddressRoundTrip(a: Address, upper: bool)
    requires ValidAddress(a)
    ensures ParseAddress(FormatAddress(a, upper)) == Some(a)
  {
    hide HexChar, HexDigit;
    var s := FormatAddress(a, upper);
    FourDigits(a.segment);
    assert HexDigit(s[0]) == a.segment / 0x1000 && HexDigit(s[1]) == a.segment / 0x100 % 16;
    assert HexDigit(s[2]) == a.segment / 0x10 % 16 && HexDigit(s[3]) == a.segment % 16;
  }

  lemma FourDigits(n: nat)
    requires n < 0x1_0000
    ensures n / 0x1000 < 16
    ensures n == n / 0x1000 * 0x1000 + n / 0x100 % 16 * 0x100 + n / 0x10 % 16 * 0x10 + n % 16
  {
    assert n / 0x100 == n / 0x1000 * 16 + n / 0x100 % 16;
    assert n / 0x10 == n / 0x100 * 16 + n / 0x10 % 16;
  }

  lemma ParsedAddressIsValid(s: string)
    ensures ParseAddress(s).Some? ==> ValidAddress(ParseAddress(s).value)
  {
  }

  function ParseHex16(s: string): Option<nat> {
    if |s| != 4 then None else Value(s, 16)
  }
}
