/** Which texts the parser accepts as a value: exactly the spellings of the value it
    stores. */
module IniSpelling {
  import opened Basics
  import opened IniText
  import opened IniParser
  import opened IniPrint
  import opened IniPrintExact

  // ---------------------------------------------------------------------- digits

  function LowerChar(c: char): char {
    if 'A' <= c <= 'Z' then (c as int + 32) as char else c
  }

  /** The text in lower case. */
  function Lower(s: string): (r: string)
    ensures |r| == |s|
  {
    seq(|s|, i requires 0 <= i < |s| => LowerChar(s[i]))
  }

  lemma LowerDigit(c: char)
    requires HexDigit(c) >= 0
    ensures LowerChar(c) == HexChar(HexDigit(c), false)
  {
  }

  function Zeros(n: nat): (s: string)
    ensures |s| == n
  {
    seq(n, _ => '0')
  }

  /** Digits are a number printed after any leading zeros, in any case. */
  ghost predicate Spells(digits: string, radix: nat, n: nat)
    requires 2 <= radix <= 16
  {
    exists z :: Padded(digits, radix, n, z)
  }

  ghost predicate Padded(digits: string, radix: nat, n: nat, z: nat)
    requires 2 <= radix <= 16
  {
    Lower(digits) == Zeros(z) + Digits(n, radix, false)
  }

  lemma {:induction false} ValueSpells(s: string, radix: nat)
    requires (radix == 10 || radix == 16) && s != "" && Value(s, radix).Some?
    ensures Spells(s, radix, Value(s, radix).value)
  {
    hide HexDigit, HexChar, LowerChar, Spells;
    var init, c := s[..|s| - 1], s[|s| - 1];
    var d: nat := HexDigit(c);
    LowerDigit(c);
    LowerPush(init, c);
    assert s == init + [c];
    if init == "" {
      OneSpells(s, d, radix);
    } else {
      ValueSpells(init, radix);
      PushSpells(init, Value(init, radix).value, c, d, radix);
    }
  }

  lemma LowerPush(init: string, c: char)
    ensures Lower(init + [c]) == Lower(init) + [LowerChar(c)]
  {
    hide LowerChar;
  }

  lemma OneSpells(s: string, d: nat, radix: nat)
    requires 2 <= radix <= 16 && d < radix && Lower(s) == [HexChar(d, false)]
    ensures Spells(s, radix, d)
  {
    hide HexChar, Lower;
    SmallDigits(d, radix);
    assert Padded(s, radix, d, 0);
  }

  lemma PushSpells(init: string, v: nat, c: char, d: nat, radix: nat)
    requires (radix == 10 || radix == 16) && Spells(init, radix, v) && d < radix
    requires LowerChar(c) == HexChar(d, false)
    ensures Spells(init + [c], radix, v * radix + d)
  {
    hide HexChar, Lower, LowerChar, Digits;
    LowerPush(init, c);
    var z: nat :| Padded(init, radix, v, z);
    if v == 0 {
      ZeroDigits(radix);
      SmallDigits(d, radix);
      assert Zeros(z) + "0" == Zeros(z + 1);
      assert Padded(init + [c], radix, d, z + 1);
    } else {
      MoreDigits(v, d, radix);
      assert Padded(init + [c], radix, v * radix + d, z) by {
        Glue(Zeros(z), Digits(v, radix, false), [HexChar(d, false)]);
      }
    }
  }

  lemma Glue(a: string, b: string, c: string)
    ensures a + b + c == a + (b + c)
  {
  }

  lemma ZeroDigits(radix: nat)
    requires 2 <= radix <= 16
    ensures Digits(0, radix, false) == "0"
  {
  }

  lemma SmallDigits(d: nat, radix: nat)
    requires 2 <= radix <= 16 && d < radix
    ensures Digits(d, radix, false) == [HexChar(d, false)]
  {
    hide HexChar;
  }

  lemma MoreDigits(v: nat, d: nat, radix: nat)
    requires (radix == 10 || radix == 16) && v > 0 && d < radix
    ensures Digits(v * radix + d, radix, false) == Digits(v, radix, false) + [HexChar(d, false)]
  {
    hide HexChar;
    var n := v * radix + d;
    assert n >= radix by {
      assert v * radix >= radix;
    }
    QuotientIs(v, d, radix);
  }

  lemma QuotientIs(v: nat, d: nat, radix: nat)
    requires (radix == 10 || radix == 16) && d < radix
    ensures (v * radix + d) / radix == v && (v * radix + d) % radix == d
  {
  }

  // ---------------------------------------------------------------------- values

  /** The text is a spelling of the number: decimal, or hexadecimal after 0x. */
  ghost predicate SpellsNumber(text: string, n: nat) {
    || Spells(text, 10, n)
    || (|text| > 2 && text[0] == '0' && (text[1] == 'x' || text[1] == 'X') && Spells(text[2..], 16, n))
  }

  lemma NumberSpelled(text: string, maximum: nat)
    ensures Number(text, maximum).Some? ==> SpellsNumber(text, Number(text, maximum).value)
  {
    if Number(text, maximum).Some? {
      var (digits, radix) := NumberDigits(text);
      ValueSpells(digits, radix);
    }
    hide Value, Spells;
  }

  lemma HexSpelled(text: string)
    ensures ParseHex16(text).Some? ==>
      ParseHex16(text).value < 0x1_0000 && Lower(text) == Four(ParseHex16(text).value, false)
  {
    if ParseHex16(text).Some? {
      var a, b, c, d := HexDigit(text[0]), HexDigit(text[1]), HexDigit(text[2]), HexDigit(text[3]);
      FourValue(text);
      LowerDigit(text[0]);
      LowerDigit(text[1]);
      LowerDigit(text[2]);
      LowerDigit(text[3]);
      FourParts(a, b, c, d);
      hide HexDigit, HexChar, LowerChar, Value;
      assert Lower(text) == [HexChar(a, false), HexChar(b, false), HexChar(c, false), HexChar(d, false)];
    }
  }

  lemma FourValue(text: string)
    requires |text| == 4 && Value(text, 16).Some?
    ensures forall i :: 0 <= i < 4 ==> HexDigit(text[i]) >= 0
    ensures Value(text, 16).value ==
            HexDigit(text[0]) * 0x1000 + HexDigit(text[1]) * 0x100 + HexDigit(text[2]) * 0x10 + HexDigit(text[3])
  {
    hide HexDigit;
    var t3, t2, t1 := text[..3], text[..2], text[..1];
    assert t3[..2] == t2 && t2[..1] == t1 && t1[..0] == "";
    assert Value(t3, 16).Some? && Value(t2, 16).Some? && Value(t1, 16).Some?;
    assert Value(t1, 16).value == HexDigit(text[0]);
    assert Value(t2, 16).value == HexDigit(text[0]) * 16 + HexDigit(text[1]);
    assert Value(t3, 16).value == (HexDigit(text[0]) * 16 + HexDigit(text[1])) * 16 + HexDigit(text[2]);
  }

  lemma FourParts(a: nat, b: nat, c: nat, d: nat)
    requires a < 16 && b < 16 && c < 16 && d < 16
    ensures var v := a * 0x1000 + b * 0x100 + c * 0x10 + d;
      v < 0x1_0000 && v / 0x1000 == a && v / 0x100 % 16 == b && v / 0x10 % 16 == c && v % 16 == d
  {
    var v := a * 0x1000 + b * 0x100 + c * 0x10 + d;
    assert v / 0x10 == a * 0x100 + b * 0x10 + c;
    assert v / 0x100 == a * 0x10 + b;
  }

  lemma AddressSpelled(text: string)
    ensures ParseAddress(text).Some? ==>
      ValidAddress(ParseAddress(text).value) && Lower(text) == FormatAddress(ParseAddress(text).value, false)
  {
    if ParseAddress(text).Some? {
      forall i | 0 <= i < 12 && i != 4 && i != 7 && i != 10
        ensures HexDigit(text[i]) >= 0 && Lower(text)[i] == HexChar(HexDigit(text[i]), false)
      {
        LowerDigit(text[i]);
      }
      FourParts(HexDigit(text[0]), HexDigit(text[1]), HexDigit(text[2]), HexDigit(text[3]));
      SpelledParts(text, ParseAddress(text).value);
    }
  }

  lemma SpelledParts(text: string, a: Address)
    requires |text| == 12 && text[4] == ':' && text[7] == ':' && text[10] == '.' && ValidAddress(a)
    requires forall i :: 0 <= i < 12 && i != 4 && i != 7 && i != 10 ==>
      HexDigit(text[i]) >= 0 && Lower(text)[i] == HexChar(HexDigit(text[i]), false)
    requires && a.segment / 0x1000 == HexDigit(text[0]) && a.segment / 0x100 % 16 == HexDigit(text[1])
             && a.segment / 0x10 % 16 == HexDigit(text[2]) && a.segment % 16 == HexDigit(text[3])
    requires a.bus == HexDigit(text[5]) * 16 + HexDigit(text[6])
    requires a.device == HexDigit(text[8]) * 16 + HexDigit(text[9]) && a.func == HexDigit(text[11])
    ensures Lower(text) == FormatAddress(a, false)
  {
    hide HexDigit, HexChar;
    assert a.bus / 16 == HexDigit(text[5]) && a.bus % 16 == HexDigit(text[6]);
    assert a.device / 16 == HexDigit(text[8]) && a.device % 16 == HexDigit(text[9]);
    assert Lower(text)[4] == ':' && Lower(text)[7] == ':' && Lower(text)[10] == '.';
  }

  lemma {:induction false} UnescapedIs(s: string)
    ensures Unescape(s).Some? ==> s == Escape(Unescape(s).value) + "\""
  {
    if Unescape(s).Some? {
      if s[0] == '"' {
        assert s == "\"";
      } else {
        var n := if s[0] == '\\' then 2 else 1;
        UnescapedIs(s[n..]);
        var v := Unescape(s).value;
        assert v[1..] == Unescape(s[n..]).value;
        assert s == s[..n] + s[n..];
        assert Escape(v) == s[..n] + Escape(v[1..]);
      }
    }
  }

  lemma DiskSpelled(text: string)
    ensures DecodeDisk(text).Some? ==>
      text == DecodeDisk(text).value || text == "\"" + Escape(DecodeDisk(text).value) + "\""
  {
    if DecodeDisk(text).Some? && text[0] == '"' {
      UnescapedIs(text[1..]);
      hide Escape, Unescape;
      assert text == "\"" + text[1..];
    }
  }

  /** The text is one of the spellings of what the configuration holds for the key. */
  ghost predicate SpelledAs(c: Config, k: Key, text: string)
    requires Sound(c) && Present(c, k)
  {
    var s, m := c.settings, c.settings.marker;
    match k
    case TargetPci => Lower(text) == FormatAddress(c.targetPci.value, false)
    case TargetControllerPci => Lower(text) == FormatAddress(c.controllerPci.value, false)
    case TargetBbsDescription => text == c.disk.value || text == "\"" + Escape(c.disk.value) + "\""
    case ExpectedVendor => Lower(text) == Four(s.expectedVendor.value, false)
    case ExpectedDevice => Lower(text) == Four(s.expectedDevice.value, false)
    case ExpectedSubsystemVendor => Lower(text) == Four(s.expectedSubsystemVendor.value, false)
    case ExpectedSubsystemDevice => Lower(text) == Four(s.expectedSubsystemDevice.value, false)
    case PartitionNumber => SpellsNumber(text, m.partition)
    case DiskSignature => SpellsNumber(text, m.signature)
    case PartitionStart => SpellsNumber(text, m.start)
    case PartitionSectors => SpellsNumber(text, m.sectors)
    case _ => text == ValueOf(c, k, Style({}, false))
  }

  lemma VideoSpelled(d: Config, e: Config, k: Key, text: string)
    requires Home(k) == Video && SetKeyValue(d, Video, NameOf(k), text) == Ok(e) && Sound(e) && Present(e, k)
    ensures SpelledAs(e, k, text)
  {
    AddressSpelled(text);
    HexSpelled(text);
    hide ParseAddress, ParseHex16, FormatAddress, Four, Lower, SoundMarker, SoundTexts;
  }

  lemma BootSpelled(d: Config, e: Config, k: Key, text: string)
    requires Home(k) == Boot && SetKeyValue(d, Boot, NameOf(k), text) == Ok(e) && Sound(e) && Present(e, k)
    ensures SpelledAs(e, k, text)
  {
    AddressSpelled(text);
    DiskSpelled(text);
    hide ParseAddress, DecodeDisk, FormatAddress, Escape, Lower, SoundMarker, SoundIds;
  }

  lemma SwitchSpelled(d: Config, e: Config, k: Key, text: string)
    requires Home(k) == Profile || Home(k) == Endpoint || Home(k) == Behavior
    requires SetKeyValue(d, Home(k), NameOf(k), text) == Ok(e) && Sound(e) && Present(e, k)
    ensures SpelledAs(e, k, text)
  {
    hide SetMarker, SetVideo, SetBoot, SoundMarker, SoundIds, SoundTargets;
  }

  lemma MarkerSpelled(d: Config, e: Config, k: Key, text: string)
    requires Home(k) == MarkerSection && SetMarker(d.settings.marker, NameOf(k), text) == Some(e.settings.marker)
    requires Sound(e) && Present(e, k)
    ensures SpelledAs(e, k, text)
  {
    MarkerKeys();
    NumberSpelled(text, 0xFFFF_FFFF);
    NumberSpelled(text, 0xFFFF_FFFF_FFFF_FFFF);
    hide MarkerKey, Number, SpellsNumber, PathOk, SoundTexts, SoundIds, SoundTargets;
  }

  lemma MarkerStep(d: Config, e: Config, key: string, text: string)
    requires SetKeyValue(d, MarkerSection, key, text) == Ok(e)
    ensures SetMarker(d.settings.marker, key, text) == Some(e.settings.marker)
  {
    hide SetMarker;
  }

  lemma SettingSpelled(d: Config, e: Config, k: Key, text: string)
    requires SetKeyValue(d, Home(k), NameOf(k), text) == Ok(e) && Sound(e) && Present(e, k)
    ensures SpelledAs(e, k, text)
  {
    hide SetKeyValue, SetMarker, Sound, Present, SpelledAs, NameOf;
    match Home(k)
    case Video => VideoSpelled(d, e, k, text);
    case Boot => BootSpelled(d, e, k, text);
    case MarkerSection =>
      MarkerStep(d, e, NameOf(k), text);
      MarkerSpelled(d, e, k, text);
    case _ => SwitchSpelled(d, e, k, text);
  }

  /** An accepted pair stores, in one documented setting seen for the first time, the
      value that its text spells, and changes nothing else. */
  lemma AcceptedIsSpelled(d: Config, section: Section, key: string, text: string) returns (k: Key)
    requires Sound(d) && Tight(text) && '=' !in text && SetKeyValue(d, section, key, text).Ok?
    ensures var e := SetKeyValue(d, section, key, text).value;
      Sets(d, e, section, key, k) && Sound(e) && SpelledAs(e, k, text)
  {
    hide SetKeyValue, Sound, Present, SpelledAs, Tight, Put, Home, NameOf;
    k := AcceptedSets(d, section, key, text);
    PairKeepsSound(d, section, key, text);
    SettingSpelled(d, SetKeyValue(d, section, key, text).value, k, text);
  }
}
