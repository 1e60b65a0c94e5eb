/** JSON strings (section 7 of RFC 8259) as `json.loads` reads them and
    `json.dumps(..., ensure_ascii=False)` writes them. */
module JsonText {
  import opened Common
  import opened IniScanner

  function HexDigit(n: nat): char
    requires n < 16
  {
    if n < 10 then '0' + (n as char) else 'a' + ((n - 10) as char)
  }

  function HexValue(c: char): Option<nat> {
    if '0' <= c <= '9' then Some((c - '0') as nat)
    else if 'a' <= c <= 'f' then Some((c - 'a') as nat + 10)
    else if 'A' <= c <= 'F' then Some((c - 'A') as nat + 10)
    else None
  }

  /** The four hexadecimal digits at the front of `s`. */
  function Unit(s: string): (r: Option<nat>)
    ensures r.Some? ==> |s| >= 4 && r.value < 0x10000
  {
    if |s| < 4 then None
    else
      var a, b, c, d := HexValue(s[0]), HexValue(s[1]), HexValue(s[2]), HexValue(s[3]);
      if a.None? || b.None? || c.None? || d.None? then None
      else HexNumber(a.value, b.value, c.value, d.value)
  }

  function HexNumber(a: nat, b: nat, c: nat, d: nat): (r: Option<nat>)
    ensures r.Some? ==> r.value < 0x10000
  {
    if a < 16 && b < 16 && c < 16 && d < 16 then Some(a * 4096 + b * 256 + c * 16 + d) else None
  }

  function SimpleEscape(c: char): Option<char> {
    if c == '"' || c == '\\' || c == '/' then Some(c)
    else if c == 'b' then Some('\U{08}')
    else if c == 'f' then Some('\U{0C}')
    else if c == 'n' then Some('\n')
    else if c == 'r' then Some('\r')
    else if c == 't' then Some('\t')
    else None
  }

  function Prepend(c: char, r: Option<(string, string)>): Option<(string, string)> {
    if r.None? then None else Some(([c] + r.value.0, r.value.1))
  }

  /** The text up to the closing quote, decoded, and what follows that quote. */
  function Unescape(s: string): Option<(string, string)>
    decreases |s|
  {
    if s == "" then None
    else if s[0] == '"' then Some(("", s[1..]))
    else if s[0] != '\\' then
      if s[0] < ' ' then None else Prepend(s[0], Unescape(s[1..]))
    else if |s| == 1 then None
    else if s[1] != 'u' then
      var c := SimpleEscape(s[1]);
      if c.None? then None else Prepend(c.value, Unescape(s[2..]))
    else
      var u := Unit(s[2..]);
      if u.None? then None
      else if 0xD800 <= u.value < 0xDC00 then
        // A surrogate pair; a lone surrogate is not a character.
        var low := if |s| >= 8 && s[6] == '\\' && s[7] == 'u' then Unit(s[8..]) else None;
        if low.None? || !(0xDC00 <= low.value < 0xE000) then None
        else Prepend((0x10000 + (u.value - 0xD800) * 0x400 + (low.value - 0xDC00)) as char, Unescape(s[12..]))
      else if 0xDC00 <= u.value < 0xE000 then None
      else Prepend(u.value as char, Unescape(s[6..]))
  }

  predicate JsonSpace(s: string) {
    forall i :: 0 <= i < |s| ==> s[i] == ' ' || s[i] == '\t' || s[i] == '\n' || s[i] == '\r'
  }

  /** `json.loads` of a text that starts with a quote. */
  function Loads(t: string): Option<string>
    requires t != "" && t[0] == '"'
  {
    var r := Unescape(t[1..]);
    if r.None? || !JsonSpace(r.value.1) then None else Some(r.value.0)
  }

  function EscapeChar(c: char): string {
    if c == '"' then "\\\""
    else if c == '\\' then "\\\\"
    else if c == '\n' then "\\n"
    else if c == '\r' then "\\r"
    else if c == '\t' then "\\t"
    else if c == '\U{08}' then "\\b"
    else if c == '\U{0C}' then "\\f"
    else if c < ' ' then ['\\', 'u', '0', '0', HexDigit(c as nat / 16), HexDigit(c as nat % 16)]
    else [c]
  }

  function Escape(s: string): string {
    if s == "" then "" else EscapeChar(s[0]) + Escape(s[1..])
  }

  function Dumps(s: string): string {
    "\"" + Escape(s) + "\""
  }

  // ---- Reading back what was written ----

  lemma HexBack(n: nat)
    requires n < 16
    ensures HexValue(HexDigit(n)) == Some(n)
  {
  }

  /** The three forms of an escaped character. */
  lemma EscapeShape(c: char)
    ensures var e := EscapeChar(c);
            || (e == [c] && c != '"' && c != '\\' && c >= ' ')
            || (|e| == 2 && e[0] == '\\' && e[1] != 'u' && SimpleEscape(e[1]) == Some(c))
            || (c < ' ' && e == ['\\', 'u', '0', '0', HexDigit(c as nat / 16), HexDigit(c as nat % 16)])
  {
    hide HexDigit;
  }

  lemma UnescapePlain(c: char, rest: string)
    requires c != '"' && c != '\\' && c >= ' '
    ensures Unescape([c] + rest) == Prepend(c, Unescape(rest))
  {
    hide SimpleEscape, Unit;
    assert ([c] + rest)[1..] == rest;
  }

  lemma UnescapeSimple(e: string, c: char, rest: string)
    requires |e| == 2 && e[0] == '\\' && e[1] != 'u' && SimpleEscape(e[1]) == Some(c)
    ensures Unescape(e + rest) == Prepend(c, Unescape(rest))
  {
    hide SimpleEscape, Unit;
    assert (e + rest)[2..] == rest;
  }

  lemma UnescapeControl(e: string, c: char, rest: string)
    requires c < ' ' && e == ['\\', 'u', '0', '0', HexDigit(c as nat / 16), HexDigit(c as nat % 16)]
    ensures Unescape(e + rest) == Prepend(c, Unescape(rest))
  {
    hide HexDigit, SimpleEscape, Unit;
    var hi, lo := c as nat / 16, c as nat % 16;
    assert (e + rest)[2..] == ['0', '0', HexDigit(hi), HexDigit(lo)] + rest;
    assert (e + rest)[6..] == rest;
    ControlUnit(hi, lo, rest);
  }

  lemma UnescapeChar(c: char, rest: string)
    ensures Unescape(EscapeChar(c) + rest) == Prepend(c, Unescape(rest))
  {
    hide Unescape, EscapeChar, HexDigit, SimpleEscape, Prepend;
    EscapeShape(c);
    var e := EscapeChar(c);
    if |e| == 1 {
      UnescapePlain(c, rest);
    } else if |e| == 2 {
      UnescapeSimple(e, c, rest);
    } else {
      UnescapeControl(e, c, rest);
    }
  }

  lemma ControlUnit(hi: nat, lo: nat, rest: string)
    requires hi < 16 && lo < 16
    ensures Unit(['0', '0', HexDigit(hi), HexDigit(lo)] + rest) == Some(hi * 16 + lo)
  {
    HexBack(0);
    HexBack(hi);
    HexBack(lo);
  }

  lemma {:induction false} UnescapeEscape(s: string, rest: string)
    ensures Unescape(Escape(s) + "\"" + rest) == Some((s, rest))
  {
    hide EscapeChar, Unescape;
    if s == "" {
      ClosingQuote(rest);
      assert Escape(s) + "\"" + rest == "\"" + rest;
    } else {
      assert Escape(s) + "\"" + rest == EscapeChar(s[0]) + (Escape(s[1..]) + "\"" + rest);
      UnescapeChar(s[0], Escape(s[1..]) + "\"" + rest);
      UnescapeEscape(s[1..], rest);
      assert s == [s[0]] + s[1..];
    }
  }

  lemma ClosingQuote(rest: string)
    ensures Unescape("\"" + rest) == Some(("", rest))
  {
    assert ("\"" + rest)[1..] == rest;
  }

  lemma LoadsDumps(s: string)
    ensures Loads(Dumps(s)) == Some(s)
  {
    assert Dumps(s)[1..] == Escape(s) + "\"" + "";
    UnescapeEscape(s, "");
  }

  // ---- Escaped text is one unit for the scanners ----

  lemma EscapeCharRun(c: char)
    ensures Run(Scan(0, true, false), EscapeChar(c)) == Scan(0, true, false)
    ensures forall i :: 0 <= i <= |EscapeChar(c)| ==> Run(Scan(0, true, false), EscapeChar(c)[..i]).quoted
  {
    var q, e := Scan(0, true, false), Scan(0, true, true);
    var t := EscapeChar(c);
    if |t| == 6 {
      HexIsPlain(t[4]);
      HexIsPlain(t[5]);
    }
    assert Run(q, t[..0]) == q;
    RunSnoc(q, t, 0);
    if |t| > 1 {
      assert t[0] == '\\';
      assert Run(q, t[..1]) == e;
      RunSnoc(q, t, 1);
      assert Run(q, t[..2]) == q;
    }
    if |t| > 2 {
      RunSnoc(q, t, 2);
      RunSnoc(q, t, 3);
      RunSnoc(q, t, 4);
      RunSnoc(q, t, 5);
    }
    assert t[..|t|] == t;
  }

  lemma HexIsPlain(c: char)
    ensures HexValue(c).Some? ==> c != '"' && c != '\\'
  {
  }

  lemma {:induction false} EscapeRun(s: string, i: nat)
    requires i <= |Escape(s)|
    ensures Run(Scan(0, true, false), Escape(s)) == Scan(0, true, false)
    ensures Run(Scan(0, true, false), Escape(s)[..i]).quoted
    decreases |s|
  {
    hide EscapeChar;
    var q := Scan(0, true, false);
    if s != "" {
      var t, rest := EscapeChar(s[0]), Escape(s[1..]);
      EscapeCharRun(s[0]);
      RunAppend(q, t, rest);
      if i <= |t| {
        assert Escape(s)[..i] == t[..i];
        EscapeRun(s[1..], 0);
      } else {
        assert Escape(s)[..i] == t + rest[..i - |t|];
        RunAppend(q, t, rest[..i - |t|]);
        EscapeRun(s[1..], i - |t|);
      }
    }
  }

  /** A written string is passed over as one unit, whatever it contains. */
  lemma DumpsIsPiece(s: string)
    ensures Piece(Dumps(s)) && Trimmed(Dumps(s))
  {
    hide Escape;
    var t := Dumps(s);
    var body := "\"" + Escape(s);
    forall i | 0 < i <= |body|
      ensures t[..i] == body[..i] && Run(START, t[..i]).quoted
    {
      assert t[..i] == "\"" + Escape(s)[..i - 1];
      AfterQuote(Escape(s)[..i - 1]);
      EscapeRun(s, i - 1);
    }
    EscapeRun(s, 0);
    AfterQuote(Escape(s));
    RunSnoc(START, t, |t| - 1);
    assert t[..|t| - 1] == body && t[..|t|] == t;
    assert t[0] == '"' && t[|t| - 1] == '"';
  }

  lemma AfterQuote(t: string)
    ensures Run(START, "\"" + t) == Run(Scan(0, true, false), t)
  {
    assert ("\"" + t)[1..] == t;
  }
}
