/** The log's UTF-16 to UTF-8 encoder, against a strict decoder for section 3
    of RFC 3629. */
module Utf8 {
  import opened Basics

  /** A Unicode scalar value. */
  type Scalar = x: int | 0 <= x < 0xD800 || 0xE000 <= x <= 0x10FFFF

  const REPLACEMENT: Scalar := 0xFFFD

  predicate IsHigh(c: u16) {
    0xD800 <= c <= 0xDBFF
  }

  predicate IsLow(c: u16) {
    0xDC00 <= c <= 0xDFFF
  }

  // ------------------------------------------------------------ the two meanings

  /** What UTF-16 text means: pairs combine, and an unpaired surrogate stands
      for U+FFFD. */
  function Scalars(text: seq<u16>): seq<Scalar> {
    if text == [] then []
    else if IsHigh(text[0]) && |text| > 1 && IsLow(text[1]) then
      [Pair(text[0], text[1])] + Scalars(text[2..])
    else if IsHigh(text[0]) || IsLow(text[0]) then [REPLACEMENT] + Scalars(text[1..])
    else [text[0]] + Scalars(text[1..])
  }

  datatype Decoded = Malformed | Text(scalars: seq<Scalar>)

  function Pair(high: int, low: int): int {
    0x1_0000 + (high - 0xD800) * 0x400 + (low - 0xDC00)
  }

  function Two(a: int, b: int): int {
    (a - 0xC0) * 0x40 + (b - 0x80)
  }

  function Three(a: int, b: int, c: int): int {
    (a - 0xE0) * 0x1000 + (b - 0x80) * 0x40 + (c - 0x80)
  }

  function Four(a: int, b: int, c: int, d: int): int {
    (a - 0xF0) * 0x4_0000 + (b - 0x80) * 0x1000 + (c - 0x80) * 0x40 + (d - 0x80)
  }

  predicate IsTail(b: u8) {
    0x80 <= b <= 0xBF
  }

  function Cons(head: Scalar, rest: Decoded): Decoded {
    if rest.Malformed? then Malformed else Text([head] + rest.scalars)
  }

  /** Decodes well-formed UTF-8 only: overlong forms, surrogates, values above
      U+10FFFF, stray tails and truncated sequences are malformed. */
  function Decode(bytes: seq<u8>): Decoded {
    if bytes == [] then Text([])
    else
      var b := bytes[0];
      if b < 0x80 then Cons(b, Decode(bytes[1..]))
      else if 0xC2 <= b <= 0xDF && |bytes| >= 2 && IsTail(bytes[1]) then
        Cons(Two(b, bytes[1]), Decode(bytes[2..]))
      else if 0xE0 <= b <= 0xEF && |bytes| >= 3 && IsTail(bytes[1]) && IsTail(bytes[2]) then
        var v := Three(b, bytes[1], bytes[2]);
        if v < 0x800 || 0xD800 <= v <= 0xDFFF then Malformed else Cons(v, Decode(bytes[3..]))
      else if 0xF0 <= b <= 0xF4 && |bytes| >= 4 && IsTail(bytes[1]) && IsTail(bytes[2]) && IsTail(bytes[3]) then
        var v := Four(b, bytes[1], bytes[2], bytes[3]);
        if v < 0x1_0000 || v > 0x10_FFFF then Malformed else Cons(v, Decode(bytes[4..]))
      else Malformed
  }

  // ------------------------------------------------------------------ the encoder

  /** The bytes the encoder emits for one code point.  The shifts and masks of
      the source are divisions and remainders here. */
  function EncodeScalar(c: Scalar): (bytes: seq<u8>)
    ensures 1 <= |bytes| <= 4
    ensures c < 0x1_0000 ==> |bytes| <= 3
  {
    if c < 0x80 then [c]
    else if c < 0x800 then [0xC0 + c / 0x40, 0x80 + c % 0x40]
    else if c < 0x1_0000 then [0xE0 + c / 0x1000, 0x80 + c / 0x40 % 0x40, 0x80 + c % 0x40]
    else [0xF0 + c / 0x4_0000, 0x80 + c / 0x1000 % 0x40, 0x80 + c / 0x40 % 0x40, 0x80 + c % 0x40]
  }

  function EncodeAll(scalars: seq<Scalar>): seq<u8> {
    if scalars == [] then [] else EncodeScalar(scalars[0]) + EncodeAll(scalars[1..])
  }

  method UnicodeToUtf8(text: seq<u16>) returns (utf8: seq<u8>)
    ensures utf8 == EncodeAll(Scalars(text))
    ensures |utf8| <= 3 * |text|
    ensures Decode(utf8) == Text(Scalars(text))
  {
    hide EncodeScalar, EncodeAll, Decode;
    utf8 := [];
    var input := 0;
    while input < |text|
      invariant 0 <= input <= |text|
      invariant utf8 + EncodeAll(Scalars(text[input..])) == EncodeAll(Scalars(text))
      invariant |utf8| <= 3 * input
    {
      var character := text[input];
      var codePoint: Scalar;
      ghost var rest := text[input..];
      if IsHigh(character) && input + 1 < |text| {
        var low := text[input + 1];
        if IsLow(low) {
          codePoint := Pair(character, low);
          input := input + 1;
          assert rest[2..] == text[input + 1..];
        } else {
          codePoint := REPLACEMENT;
          assert rest[1..] == text[input + 1..];
        }
      } else if IsHigh(character) || IsLow(character) {
        codePoint := REPLACEMENT;
        assert rest[1..] == text[input + 1..];
      } else {
        codePoint := character;
        assert rest[1..] == text[input + 1..];
      }
      assert Scalars(rest) == [codePoint] + Scalars(text[input + 1..]);
      EncodeHead(codePoint, Scalars(text[input + 1..]));
      utf8 := utf8 + EncodeScalar(codePoint);
      input := input + 1;
    }
    assert text[input..] == [];
    EncodeNothing();
    DecodeEncodeAll(Scalars(text));
  }

  lemma EncodeNothing()
    ensures EncodeAll([]) == []
  {
  }

  lemma EncodeHead(head: Scalar, rest: seq<Scalar>)
    ensures EncodeAll([head] + rest) == EncodeScalar(head) + EncodeAll(rest)
  {
    assert ([head] + rest)[1..] == rest;
  }

  lemma DecodeEncodeScalar(c: Scalar, rest: seq<u8>)
    ensures Decode(EncodeScalar(c) + rest) == Cons(c, Decode(rest))
  {
    var e := EncodeScalar(c);
    var bytes := e + rest;
    assert bytes[|e|..] == rest;
    if 0x800 <= c {
      assert c / 0x40 == (c / 0x1000) * 0x40 + c / 0x40 % 0x40;
    }
    if 0x1_0000 <= c {
      assert c / 0x1000 == (c / 0x4_0000) * 0x40 + c / 0x1000 % 0x40;
    }
  }

  /** Decoding undoes encoding, so the output is always well formed. */
  lemma {:induction false} DecodeEncodeAll(scalars: seq<Scalar>)
    ensures Decode(EncodeAll(scalars)) == Text(scalars)
  {
    if scalars != [] {
      DecodeEncodeAll(scalars[1..]);
      DecodeEncodeScalar(scalars[0], EncodeAll(scalars[1..]));
    }
  }

  // --------------------------------------------------------- back to the input

  /** UTF-16 of a scalar value (section 2.1 of RFC 2781). */
  function Utf16(c: Scalar): seq<u16> {
    if c < 0x1_0000 then [c] else [0xD800 + (c - 0x1_0000) / 0x400, 0xDC00 + (c - 0x1_0000) % 0x400]
  }

  function Utf16All(scalars: seq<Scalar>): seq<u16> {
    if scalars == [] then [] else Utf16(scalars[0]) + Utf16All(scalars[1..])
  }

  /** The text with every unpaired surrogate replaced. */
  function Repaired(text: seq<u16>): (r: seq<u16>)
    ensures |r| == |text|
  {
    if text == [] then []
    else if IsHigh(text[0]) && |text| > 1 && IsLow(text[1]) then text[..2] + Repaired(text[2..])
    else [if IsHigh(text[0]) || IsLow(text[0]) then 0xFFFD else text[0]] + Repaired(text[1..])
  }

  lemma PairBack(high: u16, low: u16)
    requires IsHigh(high) && IsLow(low)
    ensures 0x1_0000 <= Pair(high, low) <= 0x10_FFFF && Utf16(Pair(high, low)) == [high, low]
  {
    var v := (high - 0xD800) * 0x400 + (low - 0xDC00);
    assert v / 0x400 == high - 0xD800 && v % 0x400 == low - 0xDC00;
  }

  /** The scalar values of a text are the text, apart from unpaired surrogates. */
  lemma {:induction false} ScalarsAreTheText(text: seq<u16>)
    ensures Utf16All(Scalars(text)) == Repaired(text)
  {
    hide Pair, Utf16;
    if text != [] {
      if IsHigh(text[0]) && |text| > 1 && IsLow(text[1]) {
        PairBack(text[0], text[1]);
        ScalarsAreTheText(text[2..]);
        Utf16Cons(Pair(text[0], text[1]), Scalars(text[2..]));
        assert text[..2] == [text[0], text[1]];
      } else {
        var c: Scalar := if IsHigh(text[0]) || IsLow(text[0]) then REPLACEMENT else text[0];
        SmallUtf16(c);
        ScalarsAreTheText(text[1..]);
        Utf16Cons(c, Scalars(text[1..]));
      }
    }
  }

  lemma SmallUtf16(c: Scalar)
    requires c < 0x1_0000
    ensures Utf16(c) == [c]
  {
  }

  lemma Utf16Cons(c: Scalar, rest: seq<Scalar>)
    ensures Utf16All([c] + rest) == Utf16(c) + Utf16All(rest)
  {
    assert ([c] + rest)[1..] == rest;
  }
}
