/** What single lines and encoded disk names mean to the parser. */
module IniLines {
  import opened Basics
  import opened IniText
  import opened IniParser

  // ----------------------------------------------------------------- disk names

  lemma {:induction false} UnescapeEscape(v: string)
    requires Printable(v) && '=' !in v && |v| < TEXT_BYTES
    ensures Unescape(Escape(v) + "\"") == Some(v)
  {
    var s := Escape(v) + "\"";
    if v != "" {
      var rest := v[1..];
      assert IsPrintable(v[0]) && v[0] in v;
      assert Printable(rest) && '=' !in rest;
      UnescapeEscape(rest);
      if v[0] == '"' || v[0] == '\\' {
        assert s[..2] == ['\\', v[0]] && s[2..] == Escape(rest) + "\"";
      } else {
        assert s[0] == v[0] && s[1..] == Escape(rest) + "\"";
      }
      assert [v[0]] + rest == v;
    }
  }

  lemma {:induction false} EscapeShape(v: string)
    requires Printable(v) && '=' !in v
    ensures Printable(Escape(v)) && '=' !in Escape(v)
    ensures |v| <= |Escape(v)| <= 2 * |v|
  {
    if v != "" {
      assert IsPrintable(v[0]) && v[0] in v;
      assert Printable(v[1..]) && '=' !in v[1..];
      EscapeShape(v[1..]);
    }
  }

  /** An encoded name is a value the parser keeps as it is, and it fits the
      131-byte buffer. */
  lemma EncodeShape(v: string)
    requires Representable(v)
    ensures Tight(Encode(v)) && Printable(Encode(v)) && '=' !in Encode(v)
    ensures |Encode(v)| <= 130
  {
    EscapeShape(v);
    if !NeedsQuotes(v) {
      assert IsPrintable(v[0]) && IsPrintable(v[|v| - 1]);
    }
  }

  /** Decoding an encoded disk name gives exactly the name, padding, quotes and
      backslashes included. */
  lemma DiskRoundTrip(v: string)
    requires Representable(v)
    ensures DecodeDisk(Encode(v)) == Some(v)
  {
    if NeedsQuotes(v) {
      UnescapeEscape(v);
      hide Escape, Unescape;
      assert Encode(v)[1..] == Escape(v) + "\"";
    }
  }

  // ---------------------------------------------------------------------- lines

  lemma {:induction false} TrimRightKeepsHead(s: string)
    requires s != "" && !IsSpace(s[0])
    ensures TrimRight(s) != "" && TrimRight(s)[0] == s[0]
  {
    if IsSpace(s[|s| - 1]) {
      TrimRightKeepsHead(s[..|s| - 1]);
    }
  }

  lemma CommentLine(st: Result<State>, line: string)
    requires LineOk(line) && line != "" && line[0] == '#'
    ensures ParseLine(st, line) == st
  {
    assert TrimLeft(line) == line;
    TrimRightKeepsHead(line);
  }

  lemma EmptyLine(st: Result<State>)
    ensures ParseLine(st, "") == st
  {
    assert Trim("") == "";
  }

  lemma HeaderShape(line: string)
    requires SectionOf(line).Some?
    ensures line != "" && line[0] == '[' && line[|line| - 1] == ']' && Tight(line)
  {
  }

  lemma HeaderLine(st: State, line: string)
    requires SectionOf(line).Some? && LineOk(line)
    ensures ParseLine(Ok(st), line) == EnterSection(st, SectionOf(line).value)
  {
    HeaderShape(line);
    TrimTight(line);
    hide SectionOf, Trim, LineOk, EnterSection;
  }

  /** A key that cannot be mistaken for a comment or a header. */
  predicate KeyShape(key: string) {
    Tight(key) && '=' !in key && key[0] != '#' && key[0] != ';' && key[0] != '['
  }

  lemma {:induction false} FirstEqualsAt(key: string, value: string)
    requires '=' !in key
    ensures FirstEquals(key + "=" + value) == |key|
  {
    var s := key + "=" + value;
    if key == "" {
      assert s[0] == '=';
    } else {
      assert s[0] == key[0] && key[0] in key;
      assert s[1..] == key[1..] + "=" + value;
      FirstEqualsAt(key[1..], value);
    }
  }

  lemma SplitPairOf(key: string, value: string)
    requires Tight(key) && '=' !in key && Tight(value) && '=' !in value
    ensures SplitPair(key + "=" + value) == Some((key, value))
  {
    var line := key + "=" + value;
    TrimTight(key);
    TrimTight(value);
    FirstEqualsAt(key, value);
    hide Trim, FirstEquals;
    assert line[..|key|] == key && line[|key| + 1..] == value;
  }

  lemma PairText(key: string, value: string)
    requires KeyShape(key) && Tight(value) && Printable(key) && Printable(value)
    ensures Printable(key + "=" + value)
    ensures Trim(key + "=" + value) == key + "=" + value
  {
    var line := key + "=" + value;
    forall i | 0 <= i < |line| ensures IsPrintable(line[i]) {
      if i > |key| {
        assert line[i] == value[i - |key| - 1];
      }
    }
    assert line[0] == key[0] && line[|line| - 1] == value[|value| - 1];
    TrimTight(line);
  }

  lemma PairLine(st: State, key: string, value: string)
    requires KeyShape(key) && Tight(value) && '=' !in value
    requires Printable(key) && Printable(value) && |key| + 1 + |value| <= MAX_LINE
    requires st.section != NoSection
    ensures LineOk(key + "=" + value)
    ensures ParseLine(Ok(st), key + "=" + value) == WithConfig(st, SetKeyValue(st.config, st.section, key, value))
  {
    hide ParseLine, SetKeyValue, SplitPair, Trim, WithConfig;
    PairText(key, value);
    SplitPairOf(key, value);
    var line := key + "=" + value;
    assert LineOk(line);
    ProcessPair(st, line, key, value);
  }

  lemma ProcessPair(st: State, line: string, key: string, value: string)
    requires LineOk(line) && Trim(line) == line && SplitPair(line) == Some((key, value))
    requires line != "" && line[0] != '#' && line[0] != ';' && line[0] != '[' && st.section != NoSection
    ensures ParseLine(Ok(st), line) == WithConfig(st, SetKeyValue(st.config, st.section, key, value))
  {
    hide LineOk, Trim, SplitPair, SetKeyValue, WithConfig, SectionOf;
  }
}
