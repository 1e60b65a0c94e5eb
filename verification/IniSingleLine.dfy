/** A settings list that is written on one line can be edited freely: the search that `parse_ini`
    repeats on the edited text always succeeds. (With a line break inside the parentheses it may
    not, see `SettingsCounterexample.RedactedHeader`.) */
module IniSingleLine {
  import opened Common
  import opened IniScanner
  import opened IniLocator
  import opened IniDocument
  import opened IniSplice

  ghost predicate NoBreak(t: string) {
    forall i :: 0 <= i < |t| ==> t[i] != '\n'
  }

  /** `c` from `n` on reads as `d` from `m` on. */
  ghost predicate SameTail(c: string, n: nat, d: string, m: nat) {
    n <= |c| && m <= |d| && c[n..] == d[m..]
  }

  lemma TailAt(c: string, n: nat, d: string, m: nat, k: nat)
    requires SameTail(c, n, d, m)
    ensures |c| - n == |d| - m && (n + k < |c| ==> c[n + k] == d[m + k])
  {
    assert n + k < |c| ==> c[n..][k] == d[m..][k];
  }

  // ---- A match in the common tail is found in both ----

  lemma {:induction false} SpaceRunTail(c: string, n: nat, d: string, m: nat, k: nat)
    requires SameTail(c, n, d, m) && n + k <= |c|
    ensures m + k <= |d| && SpaceRun(c, n + k) - n == SpaceRun(d, m + k) - m
    decreases |c| - n - k
  {
    TailAt(c, n, d, m, k);
    if n + k < |c| && IsSpace(c[n + k]) {
      SpaceRunTail(c, n, d, m, k + 1);
    }
  }

  lemma {:induction false} BodyEndTail(c: string, n: nat, d: string, m: nat, k: nat)
    requires SameTail(c, n, d, m) && n + k <= |c|
    ensures m + k <= |d| && BodyEnd(c, n + k) - n == BodyEnd(d, m + k) - m
    decreases |c| - n - k
  {
    TailAt(c, n, d, m, k);
    if n + k < |c| && !EndsBody(c[n + k]) {
      BodyEndTail(c, n, d, m, k + 1);
    }
  }

  lemma {:induction false} TrailEndTail(c: string, n: nat, d: string, m: nat, k: nat, e: nat)
    requires SameTail(c, n, d, m) && k <= e && n + e <= |c|
    ensures m + e <= |d|
    ensures TrailEnd(c, n + k, n + e).Some? <==> TrailEnd(d, m + k, m + e).Some?
    ensures TrailEnd(c, n + k, n + e).Some? ==>
              TrailEnd(c, n + k, n + e).value - n == TrailEnd(d, m + k, m + e).value - m
    decreases e
  {
    TailAt(c, n, d, m, e);
    if e > k {
      TrailEndTail(c, n, d, m, k, e - 1);
    }
  }

  lemma {:induction false} BlankRunTail(c: string, n: nat, hi: nat, d: string, m: nat, hi': nat, k: nat)
    requires SameTail(c, n, d, m) && n + k <= hi <= |c| && m + k <= hi' <= |d| && hi - n == hi' - m
    ensures BlankRun(c, n + k, hi) - n == BlankRun(d, m + k, hi') - m
    decreases hi - n - k
  {
    TailAt(c, n, d, m, k);
    if n + k < hi && IsBlank(c[n + k]) {
      BlankRunTail(c, n, hi, d, m, hi', k + 1);
    }
  }

  lemma SliceTail(c: string, n: nat, d: string, m: nat, i: nat, j: nat)
    requires SameTail(c, n, d, m) && i <= j && n + j <= |c|
    ensures m + j <= |d| && c[n + i..n + j] == d[m + i..m + j]
  {
    hide SameTail;
    TailAt(c, n, d, m, 0);
    var left, right := c[n + i..n + j], d[m + i..m + j];
    forall k | 0 <= k < j - i
      ensures left[k] == right[k]
    {
      TailAt(c, n, d, m, i + k);
    }
  }

  lemma HeaderTail(c: string, n: nat, d: string, m: nat, k: nat)
    requires SameTail(c, n, d, m) && 0 < k && n + k <= |c|
    ensures m + k <= |d|
    ensures HeaderAt(c, n + k).Some? <==> HeaderAt(d, m + k).Some?
    ensures HeaderAt(c, n + k).Some? ==> HeaderAt(c, n + k).value.body == HeaderAt(d, m + k).value.body
  {
    hide SpaceRun, BracketAt, SameTail;
    TailAt(c, n, d, m, k - 1);
    SpaceRunTail(c, n, d, m, k);
    BracketTail(c, n, d, m, SpaceRun(c, n + k) - n);
  }

  lemma BracketTail(c: string, n: nat, d: string, m: nat, k: nat)
    requires SameTail(c, n, d, m) && n + k <= |c|
    ensures m + k <= |d|
    ensures BracketAt(c, n + k).Some? <==> BracketAt(d, m + k).Some?
    ensures BracketAt(c, n + k).Some? ==> BracketAt(c, n + k).value.body == BracketAt(d, m + k).value.body
  {
    hide SpaceRun, BodyEnd, TrailEnd, SameTail;
    TailAt(c, n, d, m, k);
    if n + k < |c| && c[n + k] == '[' {
      BodyEndTail(c, n, d, m, k + 1);
      var b := BodyEnd(c, n + k + 1);
      TailAt(c, n, d, m, b - n);
      if b < |c| && c[b] == ']' {
        SpaceRunTail(c, n, d, m, b - n + 1);
        TrailEndTail(c, n, d, m, b - n + 1, SpaceRun(c, b + 1) - n);
        SliceTail(c, n, d, m, k + 1, b - n);
      }
    }
  }

  lemma AssignTail(c: string, n: nat, hi: nat, d: string, m: nat, hi': nat, k: nat)
    requires SameTail(c, n, d, m) && n + k <= hi <= |c| && m + k <= hi' <= |d| && hi - n == hi' - m
    ensures AssignAt(c, n + k, hi).Some? <==> AssignAt(d, m + k, hi').Some?
  {
    hide BlankRun, SameTail;
    BlankRunTail(c, n, hi, d, m, hi', k);
    var e := BlankRun(c, n + k, hi);
    TailAt(c, n, d, m, e - n);
    if e < hi && c[e] == '=' {
      BlankRunTail(c, n, hi, d, m, hi', e - n + 1);
      TailAt(c, n, d, m, BlankRun(c, e + 1, hi) - n);
    }
  }

  lemma OptionTail(c: string, n: nat, hi: nat, d: string, m: nat, hi': nat, lo: nat, k: nat)
    requires SameTail(c, n, d, m) && 0 < k && lo <= n && lo <= m
    requires n + k <= hi <= |c| && m + k <= hi' <= |d| && hi - n == hi' - m
    ensures OptionAt(c, lo, hi, n + k).Some? <==> OptionAt(d, lo, hi', m + k).Some?
  {
    hide BlankRun, SameTail, AssignAt;
    TailAt(c, n, d, m, k - 1);
    BlankRunTail(c, n, hi, d, m, hi', k);
    var j := BlankRun(c, n + k, hi);
    if j + NAME_LENGTH <= hi {
      SliceTail(c, n, d, m, j - n, j - n + NAME_LENGTH);
      AssignTail(c, n, hi, d, m, hi', j - n + NAME_LENGTH);
    }
  }

  // ---- The edited file ----

  /** `c` is the prefix up to the opening parenthesis, a list without line breaks, and a suffix. */
  ghost predicate OneLine(c: string, prefix: string, inner: string, suffix: string) {
    && c == prefix + inner + suffix && NoBreak(inner)
    && prefix != "" && prefix[|prefix| - 1] == '(' && suffix != "" && suffix[0] == ')'
  }

  /** No line starts between the parentheses. */
  lemma NoLineInside(c: string, prefix: string, inner: string, suffix: string)
    requires OneLine(c, prefix, inner, suffix)
    ensures |prefix| + |inner| < |c|
    ensures forall i :: |prefix| - 1 <= i < |prefix| + |inner| ==> c[i] != '\n'
  {
    forall i | |prefix| - 1 <= i < |prefix| + |inner|
      ensures c[i] != '\n'
    {
      if i == |prefix| - 1 {
        assert c[i] == prefix[i];
      } else {
        assert c[i] == inner[i - |prefix|];
      }
    }
  }

  lemma OneLineFacts(c: string, inner: string, d: string, inner': string, prefix: string, suffix: string)
    requires OneLine(c, prefix, inner, suffix) && OneLine(d, prefix, inner', suffix)
    ensures Agree(c, d, |prefix|) && SameTail(c, |prefix| + |inner|, d, |prefix| + |inner'|)
  {
    assert c[..|prefix|] == prefix == d[..|prefix|];
    assert c[|prefix| + |inner|..] == suffix == d[|prefix| + |inner'|..];
  }

  /** No header line in `lo..end` of `c` that is not also one of `d`. */
  lemma NoHeaderInside(c: string, prefix: string, inner: string, suffix: string, i: nat)
    requires OneLine(c, prefix, inner, suffix) && |prefix| <= i <= |prefix| + |inner|
    ensures i <= |c| && HeaderAt(c, i).None?
  {
    hide SpaceRun, BracketAt;
    NoLineInside(c, prefix, inner, suffix);
  }

  /** Outside the parentheses the two texts have the same headers. */
  lemma HeadersBeyond(c: string, inner: string, d: string, inner': string, prefix: string, suffix: string,
                      lo: nat, section: bool)
    requires OneLine(c, prefix, inner, suffix) && OneLine(d, prefix, inner', suffix) && lo <= |prefix|
    requires |prefix| <= |c| && |prefix| <= |d|
    requires forall i :: lo <= i < |prefix| ==> !IsHeader(c, i, section) && !IsHeader(d, i, section)
    ensures NextHeader(c, lo, section).Some? <==> NextHeader(d, lo, section).Some?
    ensures NextHeader(c, lo, section).Some? ==>
              NextHeader(c, lo, section).value - |inner| == NextHeader(d, lo, section).value - |inner'|
              && NextHeader(c, lo, section).value > |prefix| + |inner|
  {
    hide HeaderAt, NextHeader, OneLine, SameTail, Agree;
    var n, m := |prefix| + |inner|, |prefix| + |inner'|;
    OneLineFacts(c, inner, d, inner', prefix, suffix);
    TailAt(c, n, d, m, 0);
    forall i | |prefix| <= i <= n
      ensures i <= |c| && !IsHeader(c, i, section)
    {
      NoHeaderInside(c, prefix, inner, suffix, i);
    }
    forall i | |prefix| <= i <= m
      ensures i <= |d| && !IsHeader(d, i, section)
    {
      NoHeaderInside(d, prefix, inner', suffix, i);
    }
    TailHeaders(c, n, d, m, section);
    NextHeaderTail(c, n, d, m, lo, section);
  }

  lemma TailHeaders(c: string, n: nat, d: string, m: nat, section: bool)
    requires SameTail(c, n, d, m) && n <= |c| && m <= |d| && |c| - n == |d| - m
    ensures forall i :: n < i <= |c| ==> IsHeader(c, i, section) == IsHeader(d, i - n + m, section)
  {
    hide HeaderAt, IsHeader, SameTail;
    forall i | n < i <= |c|
      ensures IsHeader(c, i, section) == IsHeader(d, i - n + m, section)
    {
      HeaderTail(c, n, d, m, i - n);
      SameHeader(c, i, d, i - n + m, section);
    }
  }

  lemma NextHeaderTail(c: string, n: nat, d: string, m: nat, lo: nat, section: bool)
    requires lo <= n <= |c| && lo <= m <= |d| && |c| - n == |d| - m
    requires forall i :: lo <= i <= n ==> !IsHeader(c, i, section)
    requires forall i :: lo <= i <= m ==> !IsHeader(d, i, section)
    requires forall i :: n < i <= |c| ==> IsHeader(c, i, section) == IsHeader(d, i - n + m, section)
    ensures NextHeader(c, lo, section).Some? <==> NextHeader(d, lo, section).Some?
    ensures NextHeader(c, lo, section).Some? ==>
              NextHeader(c, lo, section).value - n == NextHeader(d, lo, section).value - m
              && NextHeader(c, lo, section).value > n
  {
    hide NextHeader, IsHeader;
    var r, s := NextHeader(c, lo, section), NextHeader(d, lo, section);
    HeaderIsFirst(c, lo, section);
    HeaderIsFirst(d, lo, section);
    if r.Some? {
      assert IsHeader(d, r.value - n + m, section);
    }
    if s.Some? {
      assert IsHeader(c, s.value - m + n, section) == IsHeader(d, s.value - m + n - n + m, section);
    }
  }

  lemma OptionsBeyond(c: string, inner: string, d: string, inner': string, prefix: string, suffix: string,
                      lo: nat, hi: nat, hi': nat)
    requires OneLine(c, prefix, inner, suffix) && OneLine(d, prefix, inner', suffix)
    requires lo < |prefix| && |prefix| + |inner| < hi <= |c| && |prefix| + |inner'| < hi' <= |d|
    requires hi - |inner| == hi' - |inner'|
    requires NextOption(c, lo, hi, |prefix|).None?
    ensures NextOption(d, lo, hi', |prefix|).None?
  {
    hide OptionAt, NextOption, OneLine, SameTail, Agree;
    var n, m := |prefix| + |inner|, |prefix| + |inner'|;
    OneLineFacts(c, inner, d, inner', prefix, suffix);
    OptionIsFirst(c, lo, hi, |prefix|);
    forall i | |prefix| <= i <= hi'
      ensures OptionAt(d, lo, hi', i).None?
    {
      if i <= m {
        NoOptionInside(d, prefix, inner', suffix, lo, hi', i);
      } else {
        OptionTail(c, n, hi, d, m, hi', lo, i - m);
        assert OptionAt(c, lo, hi, n + (i - m)).None?;
      }
    }
  }

  lemma NoOptionInside(c: string, prefix: string, inner: string, suffix: string, lo: nat, hi: nat, i: nat)
    requires OneLine(c, prefix, inner, suffix) && |prefix| <= i <= |prefix| + |inner|
    requires lo < i <= hi <= |c|
    ensures OptionAt(c, lo, hi, i).None?
  {
    hide BlankRun, NameAt, AssignAt;
    NoLineInside(c, prefix, inner, suffix);
  }

  /** The search finds the same place in the edited text. */
  lemma SiteOfOneLine(c: string, inner: string, d: string, inner': string, prefix: string, suffix: string)
    requires OneLine(c, prefix, inner, suffix) && OneLine(d, prefix, inner', suffix)
    requires Locate(c).Some? && Locate(c).value.opening == |prefix| - 1
    requires |prefix| + |inner| < Locate(c).value.sectionEnd
    ensures Locate(d) == Some(Site(|prefix| - 1, Locate(c).value.sectionEnd - |inner| + |inner'|))
    ensures |prefix| + |inner'| < Locate(d).value.sectionEnd
  {
    hide *;
    var lo, line, name := SiteAnatomy(c);
    SiteMoves(c, inner, d, inner', prefix, suffix, lo, line, name);
  }

  lemma SiteMoves(c: string, inner: string, d: string, inner': string, prefix: string, suffix: string,
                  lo: nat, line: nat, name: nat)
    requires OneLine(c, prefix, inner, suffix) && OneLine(d, prefix, inner', suffix)
    requires OptionLine(c, line, name, |prefix| - 1) && lo < line <= |prefix| - 1 < |c|
    requires NextHeader(c, 0, true).Some? && HeaderAt(c, NextHeader(c, 0, true).value).value.end == lo
    requires NextHeader(c, lo, true) == None && |prefix| + |inner| < SectionEnd(c, lo)
    requires NextOption(c, lo, SectionEnd(c, lo), lo) == Some(line)
    requires OptionAt(c, lo, SectionEnd(c, lo), line) == Some(|prefix|)
    requires NextOption(c, lo, SectionEnd(c, lo), |prefix|) == None
    ensures Locate(d) == Some(Site(|prefix| - 1, SectionEnd(c, lo) - |inner| + |inner'|))
  {
    hide *;
    OneLineFacts(c, inner, d, inner', prefix, suffix);
    NoLineInside(d, prefix, inner', suffix);
    OptionLineFacts(c, line, name, |prefix| - 1);
    SectionMoves(c, inner, d, inner', prefix, suffix, lo, line, name);
    OptionKept(c, d, lo, line, |prefix| - 1);
    OptionsBeyond(c, inner, d, inner', prefix, suffix, lo, SectionEnd(c, lo), SectionEnd(d, lo));
    LocateIs(d, NextHeader(c, 0, true).value);
    OptionSiteIs(d, lo, SectionEnd(d, lo), line, |prefix|);
  }

  lemma SectionMoves(c: string, inner: string, d: string, inner': string, prefix: string, suffix: string,
                     lo: nat, line: nat, name: nat)
    requires OneLine(c, prefix, inner, suffix) && OneLine(d, prefix, inner', suffix)
    requires OptionLine(c, line, name, |prefix| - 1) && lo < line <= |prefix| - 1 < |c| && |prefix| <= |d|
    requires NextHeader(c, 0, true).Some? && HeaderAt(c, NextHeader(c, 0, true).value).value.end == lo
    requires NextHeader(c, lo, true) == None && |prefix| + |inner| < SectionEnd(c, lo)
    ensures NextHeader(d, 0, true) == NextHeader(c, 0, true)
    ensures HeaderAt(d, NextHeader(c, 0, true).value) == HeaderAt(c, NextHeader(c, 0, true).value)
    ensures NextHeader(d, lo, true) == None
    ensures SectionEnd(d, lo) == SectionEnd(c, lo) - |inner| + |inner'|
  {
    hide HeaderAt, NextHeader, OneLine, OptionLine, Agree, SameTail, IsHeader;
    OneLineFacts(c, inner, d, inner', prefix, suffix);
    SectionKept(c, d, lo, line, name, |prefix| - 1);
    NoHeaderBefore(c, d, lo, line, name, |prefix| - 1);
    HeadersBeyond(c, inner, d, inner', prefix, suffix, lo, true);
    HeadersBeyond(c, inner, d, inner', prefix, suffix, lo, false);
  }

  lemma NoHeaderBefore(c: string, d: string, lo: nat, line: nat, name: nat, opening: nat)
    requires OptionLine(c, line, name, opening) && Agree(c, d, opening + 1)
    requires lo < line <= opening < |c| && opening < |d|
    requires opening < SectionEnd(c, lo)
    ensures forall i :: lo <= i <= opening ==>
              !IsHeader(c, i, true) && !IsHeader(d, i, true) && !IsHeader(c, i, false) && !IsHeader(d, i, false)
  {
    hide HeaderAt, NextHeader, OptionLine, Agree;
    HeadersKept(c, d, line, name, opening);
    HeaderIsFirst(c, lo, false);
    forall i | lo <= i <= opening
      ensures !IsHeader(c, i, true) && !IsHeader(d, i, true) && !IsHeader(c, i, false) && !IsHeader(d, i, false)
    {
      assert HeaderAt(c, i) == HeaderAt(d, i) && !IsHeader(c, i, false);
    }
  }

  /** For a one-line list every edit that stays on one line is accepted when it is read back. */
  lemma OneLineAccepted(content: string, pieces: seq<string>)
    requires ParseIni(content).Ok?
    requires forall i :: 0 <= i < |pieces| ==> Piece(pieces[i])
    requires pieces == [] <==> Join(pieces) == ""
    requires NoBreak(Join(Raws(ParseIni(content).value.entries))) && NoBreak(Join(pieces))
    ensures var doc := ParseIni(content).value;
            ParseIni(doc.prefix + Join(pieces) + doc.suffix) == Ok(ParsedIni(doc.prefix, ParseEntries(pieces), doc.suffix))
  {
    hide Locate, ParseIni, ParseEntry, Piece, Join, IsSplit;
    var doc, raws, inner := ParseParts(content);
    SplitJoins(inner, raws);
    Reparse(content, pieces);
    var out := doc.prefix + Join(pieces) + doc.suffix;
    SiteOfOneLine(content, inner, out, Join(pieces), doc.prefix, doc.suffix);
  }
}
