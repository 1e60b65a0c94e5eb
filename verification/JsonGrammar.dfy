/** What `json.loads` accepts as a string, by the grammar of section 7 of RFC 8259: the reader agrees with
    it on every text. */
module JsonGrammar {
  import opened Common
  import opened JsonText

  predicate IsHex(c: char, n: nat) {
    || (n < 10 && c as int == '0' as int + n)
    || (10 <= n < 16 && (c as int == 'a' as int + n - 10 || c as int == 'A' as int + n - 10))
  }

  /** Four hexadecimal digits. */
  ghost predicate Four(t: string, n: nat) {
    |t| == 4 && exists a: nat, b: nat, c: nat, d: nat ::
      IsHex(t[0], a) && IsHex(t[1], b) && IsHex(t[2], c) && IsHex(t[3], d) && n == 4096 * a + 256 * b + 16 * c + d
  }

  /** An escape of two characters. */
  predicate ShortEscape(c: char, value: char) {
    || (c == value && (c == '"' || c == '\\' || c == '/'))
    || (c == 'b' && value as int == 8) || (c == 't' && value as int == 9) || (c == 'n' && value as int == 10)
    || (c == 'f' && value as int == 12) || (c == 'r' && value as int == 13)
  }

  ghost predicate HexEscape(text: string, n: nat) {
    |text| == 6 && text[0] == '\\' && text[1] == 'u' && Four(text[2..], n)
  }

  /** The two halves of a character beyond the basic plane. */
  ghost predicate SurrogatePair(text: string, value: char) {
    |text| == 12 && exists hi: nat, lo: nat ::
      && HexEscape(text[..6], hi) && HexEscape(text[6..], lo) && 0xD800 <= hi < 0xDC00 <= lo < 0xE000
      && value as int == 0x10000 + (hi - 0xD800) * 0x400 + (lo - 0xDC00)
  }

  /** `text` stands for the character `value` inside a JSON string. */
  ghost predicate StandsFor(text: string, value: char) {
    || (text == [value] && value != '"' && value != '\\' && value as int >= 32)
    || (|text| == 2 && text[0] == '\\' && ShortEscape(text[1], value))
    || HexEscape(text, value as int)
    || SurrogatePair(text, value)
  }

  /** `t` stands for the text `s`, character by character. */
  ghost predicate Encodes(t: string, s: string)
    decreases |s|
  {
    if s == "" then t == ""
    else exists k :: 0 < k <= |t| && StandsFor(t[..k], s[0]) && Encodes(t[k..], s[1..])
  }

  // ---- Digits ----

  lemma HexIs(c: char, n: nat)
    ensures HexValue(c) == Some(n) <==> IsHex(c, n)
  {
  }

  lemma UnitIff(s: string, n: nat)
    ensures Unit(s) == Some(n) <==> |s| >= 4 && Four(s[..4], n)
  {
    hide HexValue, IsHex;
    if |s| >= 4 {
      var t := s[..4];
      assert t[0] == s[0] && t[1] == s[1] && t[2] == s[2] && t[3] == s[3];
      forall m: nat
        ensures HexValue(s[0]) == Some(m) <==> IsHex(s[0], m)
        ensures HexValue(s[1]) == Some(m) <==> IsHex(s[1], m)
        ensures HexValue(s[2]) == Some(m) <==> IsHex(s[2], m)
        ensures HexValue(s[3]) == Some(m) <==> IsHex(s[3], m)
      {
        HexIs(s[0], m);
        HexIs(s[1], m);
        HexIs(s[2], m);
        HexIs(s[3], m);
      }
      HexBelow(s[0]);
      HexBelow(s[1]);
      HexBelow(s[2]);
      HexBelow(s[3]);
    }
  }

  lemma HexBelow(c: char)
    ensures HexValue(c).Some? ==> HexValue(c).value < 16 && IsHex(c, HexValue(c).value)
  {
  }

  lemma ShortIs(c: char, value: char)
    ensures SimpleEscape(c) == Some(value) <==> ShortEscape(c, value)
    ensures ShortEscape(c, value) ==> c != 'u'
  {
  }

  // ---- One character ----

  lemma PlainReads(text: string, value: char, rest: string)
    requires text == [value] && value != '"' && value != '\\' && value as int >= 32
    ensures Unescape(text + rest) == Prepend(value, Unescape(rest))
  {
    hide SimpleEscape, Unit;
    assert (text + rest)[1..] == rest;
    assert value >= ' ';
  }

  lemma ShortReads(text: string, value: char, rest: string)
    requires |text| == 2 && text[0] == '\\' && ShortEscape(text[1], value)
    ensures Unescape(text + rest) == Prepend(value, Unescape(rest))
  {
    hide SimpleEscape, Unit, ShortEscape;
    ShortIs(text[1], value);
    assert (text + rest)[2..] == rest;
  }

  lemma HexReads(text: string, n: nat, rest: string)
    requires HexEscape(text, n)
    ensures var t := text + rest; t[0] == '\\' && t[1] == 'u' && Unit(t[2..]) == Some(n) && t[6..] == rest
  {
    hide Unit, Four;
    var t := text + rest;
    assert t[2..][..4] == text[2..] && t[6..] == rest;
    UnitIff(t[2..], n);
  }

  lemma CharReads(text: string, value: char, rest: string)
    requires HexEscape(text, value as int)
    ensures Unescape(text + rest) == Prepend(value, Unescape(rest))
  {
    hide SimpleEscape, Unit, HexEscape;
    HexReads(text, value as int, rest);
  }

  lemma PairReads(text: string, value: char, rest: string)
    requires SurrogatePair(text, value)
    ensures Unescape(text + rest) == Prepend(value, Unescape(rest))
  {
    hide SimpleEscape, Unit, HexEscape;
    var hi: nat, lo: nat :|
      && HexEscape(text[..6], hi) && HexEscape(text[6..], lo) && 0xD800 <= hi < 0xDC00 <= lo < 0xE000
      && value as int == 0x10000 + (hi - 0xD800) * 0x400 + (lo - 0xDC00);
    var t := text + rest;
    assert t == text[..6] + (text[6..] + rest);
    HexReads(text[..6], hi, text[6..] + rest);
    HexReads(text[6..], lo, rest);
    assert t[6..] == text[6..] + rest;
    assert t[8..] == (text[6..] + rest)[2..] && t[12..] == rest && t[6] == '\\' && t[7] == 'u';
  }

  /** A character is read as what it stands for. */
  lemma StandsReads(text: string, value: char, rest: string)
    requires StandsFor(text, value)
    ensures Unescape(text + rest) == Prepend(value, Unescape(rest))
  {
    hide Unescape, Prepend, HexEscape, SurrogatePair, ShortEscape;
    if HexEscape(text, value as int) {
      CharReads(text, value, rest);
    } else if SurrogatePair(text, value) {
      PairReads(text, value, rest);
    } else if |text| == 2 && text[0] == '\\' && ShortEscape(text[1], value) {
      ShortReads(text, value, rest);
    } else {
      PlainReads(text, value, rest);
    }
  }

  /** Whatever is read, its first character is read from something that stands for it. */
  lemma FirstOf(t: string) returns (k: nat)
    requires Unescape(t).Some? && t[0] != '"'
    ensures 0 < k <= |t| && Unescape(t).value.0 != "" && StandsFor(t[..k], Unescape(t).value.0[0])
    ensures Unescape(t[k..]) == Some((Unescape(t).value.0[1..], Unescape(t).value.1))
  {
    hide SimpleEscape, Unit, ShortEscape, Four;
    if t[0] != '\\' {
      k := 1;
      assert t[..1] == [t[0]];
    } else if t[1] != 'u' {
      k := 2;
      ShortIs(t[1], SimpleEscape(t[1]).value);
    } else {
      var u := Unit(t[2..]).value;
      UnitIff(t[2..], u);
      assert t[2..][..4] == t[..6][2..];
      assert HexEscape(t[..6], u);
      if 0xD800 <= u < 0xDC00 {
        k := 12;
        var low := Unit(t[8..]).value;
        UnitIff(t[8..], low);
        assert t[8..][..4] == t[..12][6..][2..] && t[..12][..6] == t[..6];
        assert HexEscape(t[..12][6..], low);
        assert SurrogatePair(t[..12], Unescape(t).value.0[0]);
      } else {
        k := 6;
      }
    }
  }

  // ---- A whole string ----

  lemma {:induction false} EncodesReads(u: string, s: string, rest: string)
    requires Encodes(u, s)
    ensures Unescape(u + "\"" + rest) == Some((s, rest))
    decreases |s|
  {
    hide StandsFor, Unescape;
    if s == "" {
      assert u + "\"" + rest == "\"" + rest;
      QuoteReads(rest);
    } else {
      var k :| 0 < k <= |u| && StandsFor(u[..k], s[0]) && Encodes(u[k..], s[1..]);
      EncodesReads(u[k..], s[1..], rest);
      StandsReads(u[..k], s[0], u[k..] + "\"" + rest);
      assert u + "\"" + rest == u[..k] + (u[k..] + "\"" + rest);
      assert [s[0]] + s[1..] == s;
    }
  }

  lemma QuoteReads(rest: string)
    ensures Unescape("\"" + rest) == Some(("", rest))
  {
    assert ("\"" + rest)[1..] == rest;
  }

  lemma {:induction false} ReadsEncode(t: string) returns (n: nat)
    requires Unescape(t).Some?
    ensures n < |t| && t[n] == '"' && Unescape(t).value.1 == t[n + 1..] && Encodes(t[..n], Unescape(t).value.0)
    decreases |t|
  {
    hide StandsFor, Encodes;
    if t[0] == '"' {
      n := 0;
      EncodesNothing();
      assert t[..0] == "";
    } else {
      var k := FirstOf(t);
      var m := ReadsEncode(t[k..]);
      n := k + m;
      var s := Unescape(t).value.0;
      assert t[..n][..k] == t[..k] && t[..n][k..] == t[k..][..m] && t[k..][m + 1..] == t[n + 1..];
      EncodesMore(t[..n], s, k);
    }
  }

  lemma EncodesNothing()
    ensures Encodes("", "")
  {
  }

  lemma EncodesMore(t: string, s: string, k: nat)
    requires s != "" && 0 < k <= |t| && StandsFor(t[..k], s[0]) && Encodes(t[k..], s[1..])
    ensures Encodes(t, s)
  {
    hide StandsFor;
  }

  /** A text between quotes, with JSON whitespace after it. */
  ghost predicate JsonString(t: string, s: string) {
    exists n :: 0 < n < |t| && t[0] == '"' && Encodes(t[1..n], s) && t[n] == '"' && JsonSpace(t[n + 1..])
  }

  /** `json.loads` reads a text that starts with a quote as `s` exactly when the grammar does. */
  lemma LoadsIff(t: string, s: string)
    requires t != "" && t[0] == '"'
    ensures Loads(t) == Some(s) <==> JsonString(t, s)
  {
    hide Encodes, Unescape, JsonSpace;
    if Loads(t) == Some(s) {
      var n := ReadsEncode(t[1..]);
      assert t[1..][..n] == t[1..n + 1] && t[1..][n + 1..] == t[n + 2..] && t[n + 1] == '"';
    }
    if n :| 0 < n < |t| && Encodes(t[1..n], s) && t[n] == '"' && JsonSpace(t[n + 1..]) {
      EncodesReads(t[1..n], s, t[n + 1..]);
      assert t[1..] == t[1..n] + "\"" + t[n + 1..];
    }
  }
}
