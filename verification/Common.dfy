/** Result and option types, and the few text primitives the parsers share. */
module Common {

  datatype Option<+T> = None | Some(value: T)

  datatype Result<+T, +E> = Ok(value: T) | Err(error: E)

  /** The characters for which Python's `str.isspace` holds; `\s` of the `re` module and
      `str.strip` use the same set. */
  predicate IsSpace(c: char) {
    || c == ' ' || c == '\t' || c == '\n' || c == '\r'
    || c == '\U{0B}' || c == '\U{0C}'
    || '\U{1C}' <= c <= '\U{1F}'
    || c == '\U{85}' || c == '\U{A0}' || c == '\U{1680}'
    || '\U{2000}' <= c <= '\U{200A}'
    || c == '\U{2028}' || c == '\U{2029}' || c == '\U{202F}' || c == '\U{205F}' || c == '\U{3000}'
  }

  predicate AllSpace(s: string) {
    forall i :: 0 <= i < |s| ==> IsSpace(s[i])
  }

  /** No whitespace at either end. */
  predicate Trimmed(s: string) {
    s == "" || (!IsSpace(s[0]) && !IsSpace(s[|s| - 1]))
  }

  function LStrip(s: string): string {
    if s != "" && IsSpace(s[0]) then LStrip(s[1..]) else s
  }

  function RStrip(s: string): string {
    if s != "" && IsSpace(s[|s| - 1]) then RStrip(s[..|s| - 1]) else s
  }

  function Strip(s: string): string {
    RStrip(LStrip(s))
  }

  lemma NoSpace()
    ensures AllSpace("")
  {
  }

  lemma AllSpaceGrows(s: string, n: nat)
    requires n < |s| && IsSpace(s[0]) && AllSpace(s[1..][..n])
    ensures AllSpace(s[..n + 1]) && s[n + 1..] == s[1..][n..]
  {
    hide IsSpace;
    var head, tail := s[..n + 1], s[1..][..n];
    forall i | 0 <= i < |head|
      ensures IsSpace(head[i])
    {
      if i > 0 {
        assert head[i] == tail[i - 1];
      }
    }
  }

  lemma {:induction false} LStripParts(s: string)
    ensures |LStrip(s)| <= |s|
    ensures AllSpace(s[..|s| - |LStrip(s)|])
    ensures LStrip(s) == s[|s| - |LStrip(s)|..]
    ensures LStrip(s) == "" || !IsSpace(LStrip(s)[0])
  {
    hide IsSpace, AllSpace;
    NoSpace();
    if s != "" && IsSpace(s[0]) {
      var r := s[1..];
      LStripParts(r);
      AllSpaceGrows(s, |r| - |LStrip(r)|);
    }
  }

  lemma {:induction false} RStripParts(s: string)
    ensures |RStrip(s)| <= |s|
    ensures RStrip(s) == s[..|RStrip(s)|]
    ensures AllSpace(s[|RStrip(s)|..])
    ensures RStrip(s) == "" || !IsSpace(RStrip(s)[|RStrip(s)| - 1])
  {
    hide IsSpace;
    if s != "" && IsSpace(s[|s| - 1]) {
      var r := s[..|s| - 1];
      RStripParts(r);
      assert s[|RStrip(r)|..] == r[|RStrip(r)|..] + [s[|s| - 1]];
    }
  }

  /** Stripping finds exactly the leading whitespace of a text that is cut that way. */
  lemma LStripOf(pre: string, rest: string)
    requires AllSpace(pre)
    requires rest == "" || !IsSpace(rest[0])
    ensures LStrip(pre + rest) == rest
  {
    if pre == "" {
      assert pre + rest == rest;
    } else {
      assert (pre + rest)[1..] == pre[1..] + rest;
      LStripOf(pre[1..], rest);
    }
  }

  lemma RStripOf(rest: string, post: string)
    requires AllSpace(post)
    requires rest == "" || !IsSpace(rest[|rest| - 1])
    ensures RStrip(rest + post) == rest
  {
    if post == "" {
      assert rest + post == rest;
    } else {
      assert (rest + post)[..|rest + post| - 1] == rest + post[..|post| - 1];
      RStripOf(rest, post[..|post| - 1]);
    }
  }

  /** `Strip` removes whitespace and nothing else, and what is left is trimmed. */
  lemma StripParts(s: string) returns (pre: string, post: string)
    ensures s == pre + Strip(s) + post && AllSpace(pre) && AllSpace(post) && Trimmed(Strip(s))
  {
    LStripParts(s);
    var t := LStrip(s);
    RStripParts(t);
    pre, post := s[..|s| - |t|], t[|RStrip(t)|..];
  }

  lemma StripOf(pre: string, core: string, post: string)
    requires AllSpace(pre) && AllSpace(post) && Trimmed(core)
    ensures Strip(pre + core + post) == core
  {
    if core == "" {
      assert pre + core + post == (pre + post) + "";
      LStripOf(pre + post, "");
    } else {
      assert pre + core + post == pre + (core + post);
      LStripOf(pre, core + post);
      RStripOf(core, post);
    }
  }

  lemma StripTrimmed(s: string)
    requires Trimmed(s)
    ensures Strip(s) == s
  {
    StripOf("", s, "");
    assert "" + s + "" == s;
  }

  // ---- Sizes ----

  function CharBytes(c: char): nat {
    if c < '\U{80}' then 1 else if c < '\U{800}' then 2 else if c <= '\U{FFFF}' then 3 else 4
  }

  /** The size of a text encoded as UTF-8. */
  function Utf8Length(s: string): nat {
    if s == "" then 0 else Utf8Length(s[..|s| - 1]) + CharBytes(s[|s| - 1])
  }

  lemma {:induction false} Utf8Bound(s: string)
    ensures Utf8Length(s) <= 4 * |s|
  {
    if s != "" {
      Utf8Bound(s[..|s| - 1]);
    }
  }

  method Utf8Size(s: string) returns (n: nat)
    ensures n == Utf8Length(s)
  {
    n := 0;
    for i := 0 to |s|
      invariant n == Utf8Length(s[..i])
    {
      assert s[..i + 1][..i] == s[..i];
      n := n + CharBytes(s[i]);
    }
    assert s[..|s|] == s;
  }
}
