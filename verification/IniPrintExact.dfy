/** The image of the parser: what one accepted setting changes, and which
    configurations a text can mean. */
module IniPrintExact {
  import opened Basics
  import opened IniText
  import opened IniParser
  import opened IniPrint

  // ---------------------------------------------------------- what a setting changes

  /** The setting with this key was absent, is present now, and nothing else changed. */
  ghost predicate Sets(d: Config, e: Config, section: Section, key: string, k: Key) {
    Home(k) == section && NameOf(k) == key && !Present(d, k) && Present(e, k) && e == Put(d, e, k)
  }

  lemma VideoSets(d: Config, key: string, value: string) returns (k: Key)
    requires SetKeyValue(d, Video, key, value).Ok?
    ensures Sets(d, SetKeyValue(d, Video, key, value).value, Video, key, k)
  {
    hide ParseAddress, ParseHex16, SetBoot, SetEndpoint, SetBehavior, SetMarker;
    k := if key == "TargetPci" then TargetPci
         else if key == "ExpectedVendor" then ExpectedVendor
         else if key == "ExpectedDevice" then ExpectedDevice
         else if key == "ExpectedSubsystemVendor" then ExpectedSubsystemVendor
         else ExpectedSubsystemDevice;
  }

  lemma BootSets(d: Config, key: string, value: string) returns (k: Key)
    requires SetKeyValue(d, Boot, key, value).Ok?
    ensures Sets(d, SetKeyValue(d, Boot, key, value).value, Boot, key, k)
  {
    hide ParseAddress, DecodeDisk, CopyText, SetVideo, SetEndpoint, SetBehavior, SetMarker;
    k := if key == "TargetControllerPci" then TargetControllerPci
         else if key == "TargetBbsDescription" then TargetBbsDescription
         else if key == "LegacyOptionDescription" then LegacyOptionDescription
         else ExcludeDescription;
  }

  lemma SwitchSets(d: Config, section: Section, key: string, value: string) returns (k: Key)
    requires SetKeyValue(d, section, key, value).Ok?
    requires section == Profile || section == Endpoint || section == Behavior
    ensures Sets(d, SetKeyValue(d, section, key, value).value, section, key, k)
  {
    hide PolicyOf, BooleanOf, CopyText, SetVideo, SetBoot, SetMarker;
    k := if section == Profile then Name
         else if key == "IoDecoding" then IoDecoding
         else if key == "MemoryDecoding" then MemoryDecoding
         else if key == "BusMastering" then BusMastering
         else if key == "Probe" then Probe
         else if key == "VerboseLog" then VerboseLog
         else AutoBoot;
  }

  lemma MarkerSets(d: Config, key: string, value: string) returns (k: Key)
    requires SetKeyValue(d, MarkerSection, key, value).Ok?
    ensures Sets(d, SetKeyValue(d, MarkerSection, key, value).value, MarkerSection, key, k)
  {
    MarkerKeyRange(key);
    k := MarkerKeyAt(MarkerKey(key).value);
    MarkerKeyName(key);
    hide Number, PathOk, SetVideo, SetBoot, SetEndpoint, SetBehavior, MarkerKey, NameOf;
  }

  lemma MarkerKeyRange(key: string)
    ensures MarkerKey(key).Some? ==> MarkerKey(key).value < 8
  {
  }

  lemma MarkerKeyName(key: string)
    ensures MarkerKey(key).Some? ==> NameOf(MarkerKeyAt(MarkerKey(key).value)) == key
  {
  }

  lemma NothingOutside(d: Config, key: string, value: string)
    ensures SetKeyValue(d, NoSection, key, value) == Err(CompromisedData)
  {
  }

  /** An accepted pair is one of the documented settings of its section, seen for the
      first time, and changes that setting alone. */
  lemma AcceptedSets(d: Config, section: Section, key: string, value: string) returns (k: Key)
    requires SetKeyValue(d, section, key, value).Ok?
    ensures Sets(d, SetKeyValue(d, section, key, value).value, section, key, k)
  {
    hide SetKeyValue, Sets;
    match section
    case Video => k := VideoSets(d, key, value);
    case Boot => k := BootSets(d, key, value);
    case MarkerSection => k := MarkerSets(d, key, value);
    case NoSection => NothingOutside(d, key, value); k := Name;
    case _ => k := SwitchSets(d, section, key, value);
  }

  // ------------------------------------------------------- why a setting is refused

  ghost predicate Documented(section: Section, key: string) {
    exists k :: Home(k) == section && NameOf(k) == key
  }

  lemma NamedIs(section: Section, key: string, k: Key)
    requires Home(k) == section && NameOf(k) == key
    ensures Documented(section, key)
  {
  }

  lemma VideoRefuses(d: Config, key: string, value: string)
    requires SetKeyValue(d, Video, key, value).Err?
    ensures SetKeyValue(d, Video, key, value).error == if Documented(Video, key) then CompromisedData else Unsupported
  {
    hide ParseHex16, ParseAddress;
    if Documented(Video, key) {
      var k :| Home(k) == Video && NameOf(k) == key;
    } else if key == "TargetPci" {
      NamedIs(Video, key, TargetPci);
    } else if key == "ExpectedVendor" {
      NamedIs(Video, key, ExpectedVendor);
    } else if key == "ExpectedDevice" {
      NamedIs(Video, key, ExpectedDevice);
    } else if key == "ExpectedSubsystemVendor" {
      NamedIs(Video, key, ExpectedSubsystemVendor);
    } else if key == "ExpectedSubsystemDevice" {
      NamedIs(Video, key, ExpectedSubsystemDevice);
    }
  }

  lemma BootRefuses(d: Config, key: string, value: string)
    requires SetKeyValue(d, Boot, key, value).Err?
    ensures SetKeyValue(d, Boot, key, value).error == if Documented(Boot, key) then CompromisedData else Unsupported
  {
    hide CopyText, ParseAddress, DecodeDisk;
    if Documented(Boot, key) {
      var k :| Home(k) == Boot && NameOf(k) == key;
    } else if key == "TargetControllerPci" {
      NamedIs(Boot, key, TargetControllerPci);
    } else if key == "TargetBbsDescription" {
      NamedIs(Boot, key, TargetBbsDescription);
    } else if key == "LegacyOptionDescription" {
      NamedIs(Boot, key, LegacyOptionDescription);
    } else if key == "ExcludeDescription" {
      NamedIs(Boot, key, ExcludeDescription);
    }
  }

  lemma EndpointRefuses(d: Config, key: string, value: string)
    requires SetKeyValue(d, Endpoint, key, value).Err?
    ensures SetKeyValue(d, Endpoint, key, value).error ==
            if Documented(Endpoint, key) then CompromisedData else Unsupported
  {
    hide PolicyOf;
    if Documented(Endpoint, key) {
      var k :| Home(k) == Endpoint && NameOf(k) == key;
    } else if key == "IoDecoding" {
      NamedIs(Endpoint, key, IoDecoding);
    } else if key == "MemoryDecoding" {
      NamedIs(Endpoint, key, MemoryDecoding);
    } else if key == "BusMastering" {
      NamedIs(Endpoint, key, BusMastering);
    }
  }

  lemma OtherRefuses(d: Config, section: Section, key: string, value: string)
    requires section != Video && section != Boot && section != Endpoint && SetKeyValue(d, section, key, value).Err?
    ensures SetKeyValue(d, section, key, value).error == CompromisedData
  {
    hide SetMarker, SetVideo, SetBoot, SetEndpoint;
  }

  /** A refused pair is unsupported exactly if its section is one of the three that
      tell unknown keys apart and has no such key; every other refusal means
      compromised data. */
  lemma RefusalReason(d: Config, section: Section, key: string, value: string)
    requires SetKeyValue(d, section, key, value).Err?
    ensures SetKeyValue(d, section, key, value).error ==
            if section in {Video, Boot, Endpoint} && !Documented(section, key) then Unsupported else CompromisedData
  {
    hide SetKeyValue, Documented;
    match section
    case Video => VideoRefuses(d, key, value);
    case Boot => BootRefuses(d, key, value);
    case Endpoint => EndpointRefuses(d, key, value);
    case _ => OtherRefuses(d, section, key, value);
  }

  /** A header line opens its section once; a repeated one is compromised data, and
      one that is no header is unsupported. */
  lemma HeaderOutcome(st: State, t: string)
    requires t != "" && t[0] == '['
    ensures (forall s :: s != NoSection && t == HeaderOf(s) ==>
      ProcessTrimmed(st, t) == if s in st.seen then Err(CompromisedData)
                               else Ok(st.(section := s, seen := st.seen + {s})))
    ensures (forall s :: s != NoSection ==> t != HeaderOf(s)) ==> ProcessTrimmed(st, t) == Err(Unsupported)
  {
    forall s | s != NoSection && t == HeaderOf(s) ensures SectionOf(t) == Some(s) {
      HeaderIs(s);
    }
    if SectionOf(t).Some? {
      KnownHeader(t);
    }
    hide SectionOf, HeaderOf, SplitPair, SetKeyValue;
  }

  lemma KnownHeader(t: string)
    requires SectionOf(t).Some?
    ensures SectionOf(t).value != NoSection && t == HeaderOf(SectionOf(t).value)
  {
  }

  // ------------------------------------------------------------ what a parse yields

  lemma {:induction false} TrimLeftKeeps(s: string)
    requires '=' !in s
    ensures '=' !in TrimLeft(s)
  {
    if s != "" && IsSpace(s[0]) {
      TrimLeftKeeps(s[1..]);
    }
  }

  lemma {:induction false} TrimRightKeeps(s: string)
    requires '=' !in s
    ensures '=' !in TrimRight(s)
  {
    if s != "" && IsSpace(s[|s| - 1]) {
      TrimRightKeeps(s[..|s| - 1]);
    }
  }

  /** The value of a pair is tight and without '='. */
  lemma PairValue(line: string)
    requires SplitPair(line).Some?
    ensures Tight(SplitPair(line).value.1) && '=' !in SplitPair(line).value.1
  {
    var e := FirstEquals(line);
    TrimLeftKeeps(line[e + 1..]);
    TrimRightKeeps(TrimLeft(line[e + 1..]));
    hide TrimLeft, TrimRight, FirstEquals;
  }

  lemma DecodedDisk(value: string)
    requires Tight(value) && '=' !in value
    ensures DecodeDisk(value).Some? ==> Representable(DecodeDisk(value).value)
  {
    hide Unescape;
  }

  lemma CopiedText(value: string)
    requires Tight(value) && '=' !in value
    ensures CopyText(value).Some? ==> CopyText(value) == Some(value) && TextOk(value)
  {
  }

  lemma HexIsWord(value: string)
    ensures Word(ParseHex16(value))
  {
    if ParseHex16(value).Some? {
      ShortValue(value);
    }
  }

  function Pow16(k: nat): nat {
    if k == 0 then 1 else 16 * Pow16(k - 1)
  }

  lemma {:induction false} HexBelow(s: string)
    ensures Value(s, 16).Some? ==> Value(s, 16).value < Pow16(|s|)
  {
    hide HexDigit;
    if s != "" {
      HexBelow(s[..|s| - 1]);
    }
  }

  lemma ShortValue(value: string)
    requires |value| == 4
    ensures Value(value, 16).Some? ==> Value(value, 16).value < 0x1_0000
  {
    HexBelow(value);
    assert Pow16(4) == 0x1_0000;
  }

  lemma NumberBelow(value: string, maximum: nat)
    ensures Number(value, maximum).Some? ==> Number(value, maximum).value <= maximum
  {
    hide Value;
  }

  lemma MarkerNumberKeepsSound(m: MarkerSettings, key: string, value: string, k: nat)
    requires SoundMarker(m) && MarkerKey(key) == Some(k) && k < 5
    ensures SetMarker(m, key, value).Some? ==> SoundMarker(SetMarker(m, key, value).value)
  {
    hide Number, PathOk, ProfileOk, TextOk, MarkerKey;
    NumberBelow(value, 0xFFFF_FFFF);
    NumberBelow(value, 0xFFFF_FFFF_FFFF_FFFF);
  }

  lemma MarkerTextKeepsSound(m: MarkerSettings, key: string, value: string, k: nat)
    requires SoundMarker(m) && MarkerKey(key) == Some(k) && 5 <= k < 8 && Tight(value) && '=' !in value
    ensures SetMarker(m, key, value).Some? ==> SoundMarker(SetMarker(m, key, value).value)
  {
    hide Number, PathOk, MarkerKey, Tight;
  }

  lemma MarkerKeepsSound(m: MarkerSettings, key: string, value: string)
    requires SoundMarker(m) && Tight(value) && '=' !in value
    ensures SetMarker(m, key, value).Some? ==> SoundMarker(SetMarker(m, key, value).value)
  {
    MarkerKeyRange(key);
    match MarkerKey(key) {
      case None =>
      case Some(k) =>
        hide SoundMarker, SetMarker, MarkerKey, Tight;
        if k < 5 {
          MarkerNumberKeepsSound(m, key, value, k);
        } else {
          MarkerTextKeepsSound(m, key, value, k);
        }
    }
  }

  lemma VideoKeepsSound(s: Settings, key: string, value: string)
    requires SoundIds(s) && SoundTexts(s) && SoundMarker(s.marker)
    ensures var r := SetVideo(s, key, value);
      r.Ok? ==> SoundIds(r.value) && SoundTexts(r.value) && SoundMarker(r.value.marker)
  {
    HexIsWord(value);
    hide ParseHex16, TextOk, SoundMarker, Word;
  }

  lemma TextKeepsSound(s: Settings, section: Section, key: string, value: string)
    requires SoundIds(s) && SoundTexts(s) && SoundMarker(s.marker) && Tight(value) && '=' !in value
    requires section == Boot || section == Profile
    ensures var r := SetSetting(s, section, key, value);
      r.Ok? ==> SoundIds(r.value) && SoundTexts(r.value) && SoundMarker(r.value.marker)
  {
    CopiedText(value);
    hide SetMarker, SetVideo, SetEndpoint, SetBehavior, SoundMarker, CopyText, TextOk;
  }

  lemma EndpointKeepsSound(s: Settings, key: string, value: string)
    requires SoundIds(s) && SoundTexts(s) && SoundMarker(s.marker)
    ensures var r := SetEndpoint(s, key, value);
      r.Ok? ==> SoundIds(r.value) && SoundTexts(r.value) && SoundMarker(r.value.marker)
  {
    hide SoundMarker, TextOk, PolicyOf, Word;
  }

  lemma BehaviorKeepsSound(s: Settings, key: string, value: string)
    requires SoundIds(s) && SoundTexts(s) && SoundMarker(s.marker)
    ensures var r := SetBehavior(s, key, value);
      r.Ok? ==> SoundIds(r.value) && SoundTexts(r.value) && SoundMarker(r.value.marker)
  {
    hide SoundMarker, TextOk, BooleanOf, Word;
  }

  lemma SettingKeepsSound(s: Settings, section: Section, key: string, value: string)
    requires SoundIds(s) && SoundTexts(s) && SoundMarker(s.marker) && Tight(value) && '=' !in value
    ensures var r := SetSetting(s, section, key, value);
      r.Ok? ==> SoundIds(r.value) && SoundTexts(r.value) && SoundMarker(r.value.marker)
  {
    hide SetMarker, SetVideo, SetBoot, SetEndpoint, SetBehavior, SoundMarker, CopyText, TextOk;
    match section
    case NoSection =>
    case Video => VideoKeepsSound(s, key, value);
    case MarkerSection => MarkerKeepsSound(s.marker, key, value);
    case Endpoint => EndpointKeepsSound(s, key, value);
    case Behavior => BehaviorKeepsSound(s, key, value);
    case _ => TextKeepsSound(s, section, key, value);
  }

  lemma PairKeepsSound(c: Config, section: Section, key: string, value: string)
    requires Sound(c) && Tight(value) && '=' !in value
    ensures var r := SetKeyValue(c, section, key, value); r.Ok? ==> Sound(r.value)
  {
    SettingKeepsSound(c.settings, section, key, value);
    ParsedAddressIsValid(value);
    DecodedDisk(value);
    hide SetSetting, ParseAddress, DecodeDisk, SoundMarker, SoundIds, SoundTexts, Representable;
  }

  lemma LineKeepsSound(st: State, t: string)
    requires Sound(st.config)
    ensures var r := ProcessTrimmed(st, t); r.Ok? ==> Sound(r.value.config)
  {
    hide SetKeyValue, SplitPair, SectionOf, Sound;
    if SplitPair(t).Some? {
      var pair := SplitPair(t).value;
      PairValue(t);
      PairKeepsSound(st.config, st.section, pair.0, pair.1);
    }
  }

  lemma {:induction false} FeedKeepsSound(text: string)
    ensures var r := Feed(START, text); r.Ok? ==> Sound(r.value.state.config)
  {
    if text != "" {
      var init := text[..|text| - 1];
      FeedKeepsSound(init);
      if Feed(START, init).Ok? {
        LineKeepsSound(Feed(START, init).value.state, Trim(Feed(START, init).value.line));
      }
      hide ProcessTrimmed, Trim, Sound;
    }
  }

  /** Whatever text is parsed, the configuration is valid. */
  lemma ParsedIsValid(text: string)
    ensures Parse(text).Ok? ==> ValidConfig(Parse(text).value)
  {
    FeedKeepsSound(text);
    var scan := Feed(START, text);
    if scan.Ok? {
      LineKeepsSound(scan.value.state, Trim(scan.value.line));
    }
    hide ProcessTrimmed, Trim, Feed, MarkerIsValid, TargetsCollide, Sound;
  }

  /** The parser yields exactly the valid configurations: each is the meaning of its
      own printed text, and nothing else is ever parsed. */
  lemma ParserYieldsExactly(c: Config)
    ensures ValidConfig(c) <==> exists text :: Parse(text) == Ok(c)
  {
    hide Parse, Sound, Fitting, Print;
    if ValidConfig(c) {
      StandardLaysOut(c);
      var style := Style({}, true);
      PrintParseRoundTrip(c, Standard(c), style);
      assert Parse(Print(c, Standard(c), style)) == Ok(c);
    }
    forall text | Parse(text) == Ok(c) ensures ValidConfig(c) {
      ParsedIsValid(text);
    }
  }

  /** A parsed text has the same meaning as its configuration printed in any layout
      and style. */
  lemma ReprintKeepsMeaning(text: string, layout: Layout, style: Style)
    requires Parse(text).Ok? && LaysOut(layout, Parse(text).value)
    ensures Sound(Parse(text).value) && Parse(Print(Parse(text).value, layout, style)) == Parse(text)
  {
    hide Parse, Sound, Print;
    ParsedIsValid(text);
    PrintParseRoundTrip(Parse(text).value, layout, style);
  }
}
