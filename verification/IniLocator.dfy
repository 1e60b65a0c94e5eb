/** Where `parse_ini` looks: the three multi-line regular expressions of `ini.py`.

    Each expression is deterministic up to the end of a match (no character class overlaps the
    literal that follows it), so a match at a position is a function of the text. The result
    that the editor rests on is `SiteStable`: whatever is written after the opening parenthesis,
    the search never finds another one. */
module IniLocator {
  import opened Common

  const SECTION_NAME: string := "/Script/Pal.PalGameWorldSettings"
  const OPTION_NAME: string := "OptionSettings"
  const NAME_LENGTH: nat := 14

  /** The opening parenthesis of `OptionSettings=(`, and where its section ends. */
  datatype Site = Site(opening: nat, sectionEnd: nat)

  datatype Header = Header(body: string, end: nat)

  /** `s` is `word`, compared letter by letter. */
  predicate Spells(s: string, word: string) {
    |s| == |word| && (s == "" || (s[0] == word[0] && Spells(s[1..], word[1..])))
  }

  lemma {:induction false} SpellsIs(s: string, word: string)
    ensures Spells(s, word) <==> s == word
  {
    if |s| == |word| && s != "" {
      SpellsIs(s[1..], word[1..]);
      assert s == [s[0]] + s[1..] && word == [word[0]] + word[1..];
    }
  }

  predicate LineStart(c: string, i: nat)
    requires i <= |c|
  {
    i == 0 || c[i - 1] == '\n'
  }

  predicate LineEnd(c: string, i: nat)
    requires i <= |c|
  {
    i == |c| || c[i] == '\n'
  }

  predicate IsBlank(c: char) {
    c == ' ' || c == '\t'
  }

  predicate EndsBody(c: char) {
    c == ']' || c == '\r' || c == '\n'
  }

  /** The end of the run of whitespace at `i`. */
  function SpaceRun(c: string, i: nat): (j: nat)
    requires i <= |c|
    ensures i <= j <= |c| && (forall k :: i <= k < j ==> IsSpace(c[k]))
    ensures j < |c| ==> !IsSpace(c[j])
    decreases |c| - i
  {
    if i < |c| && IsSpace(c[i]) then SpaceRun(c, i + 1) else i
  }

  /** The end of the run of spaces and tabs at `i`, inside the window that ends at `hi`. */
  function BlankRun(c: string, i: nat, hi: nat): (j: nat)
    requires i <= hi <= |c|
    ensures i <= j <= hi && (forall k :: i <= k < j ==> IsBlank(c[k]))
    ensures j < hi ==> !IsBlank(c[j])
    decreases hi - i
  {
    if i < hi && IsBlank(c[i]) then BlankRun(c, i + 1, hi) else i
  }

  function BodyEnd(c: string, i: nat): (j: nat)
    requires i <= |c|
    ensures i <= j <= |c| && (forall k :: i <= k < j ==> !EndsBody(c[k]))
    ensures j < |c| ==> EndsBody(c[j])
    decreases |c| - i
  {
    if i < |c| && !EndsBody(c[i]) then BodyEnd(c, i + 1) else i
  }

  /** The last line end in `k..e`. */
  function TrailEnd(c: string, k: nat, e: nat): (r: Option<nat>)
    requires k <= e <= |c|
    ensures r.Some? ==> k <= r.value <= e && LineEnd(c, r.value)
  {
    if LineEnd(c, e) then Some(e) else if e == k then None else TrailEnd(c, k, e - 1)
  }

  /** `\[[^\]\r\n]+\]\s*$` at position `j`. */
  function BracketAt(c: string, j: nat): (r: Option<Header>)
    requires j <= |c|
    ensures r.Some? ==> j < r.value.end <= |c| && LineEnd(c, r.value.end) && c[j] == '['
  {
    if j == |c| || c[j] != '[' then None
    else
      var b := BodyEnd(c, j + 1);
      if b == |c| || c[b] != ']' || b == j + 1 then None
      else
        var e := TrailEnd(c, b + 1, SpaceRun(c, b + 1));
        if e.None? then None else Some(Header(c[j + 1..b], e.value))
  }

  /** `^\s*\[[^\]\r\n]+\]\s*$` at position `i`. */
  function HeaderAt(c: string, i: nat): (r: Option<Header>)
    requires i <= |c|
    ensures r.Some? ==> i < r.value.end <= |c| && LineEnd(c, r.value.end)
  {
    if LineStart(c, i) then BracketAt(c, SpaceRun(c, i)) else None
  }

  /** A header line; with `section`, the header line of the settings section. */
  predicate IsHeader(c: string, i: nat, section: bool)
    requires i <= |c|
  {
    HeaderAt(c, i).Some? && (section ==> Spells(HeaderAt(c, i).value.body, SECTION_NAME))
  }

  /** Equal bodies are headers of the same kind. */
  lemma SameHeader(c: string, i: nat, d: string, j: nat, section: bool)
    requires i <= |c| && j <= |d|
    requires HeaderAt(c, i).Some? <==> HeaderAt(d, j).Some?
    requires HeaderAt(c, i).Some? ==> HeaderAt(c, i).value.body == HeaderAt(d, j).value.body
    ensures IsHeader(c, i, section) == IsHeader(d, j, section)
  {
    hide HeaderAt, Spells, SECTION_NAME;
  }

  function NextHeader(c: string, from: nat, section: bool): (r: Option<nat>)
    requires from <= |c|
    ensures r.Some? ==> from <= r.value <= |c| && IsHeader(c, r.value, section)
    decreases |c| - from
  {
    if IsHeader(c, from, section) then Some(from)
    else if from == |c| then None
    else NextHeader(c, from + 1, section)
  }

  /** It is the first one. */
  lemma {:induction false} HeaderIsFirst(c: string, from: nat, section: bool)
    requires from <= |c|
    ensures var r := NextHeader(c, from, section);
            forall i :: from <= i < (if r.Some? then r.value else |c| + 1) ==> i <= |c| && !IsHeader(c, i, section)
    decreases |c| - from
  {
    hide IsHeader;
    if from < |c| && !IsHeader(c, from, section) {
      HeaderIsFirst(c, from + 1, section);
    }
  }

  predicate NameAt(c: string, j: nat, hi: nat)
    requires j <= hi <= |c|
  {
    j + NAME_LENGTH <= hi && Spells(c[j..j + NAME_LENGTH], OPTION_NAME)
  }

  /** `[ \t]*=[ \t]*\(` at `j`; the end of the match. */
  function AssignAt(c: string, j: nat, hi: nat): (r: Option<nat>)
    requires j <= hi <= |c|
    ensures r.Some? ==> j < r.value <= hi && c[r.value - 1] == '('
  {
    var k := BlankRun(c, j, hi);
    if k == hi || c[k] != '=' then None
    else
      var m := BlankRun(c, k + 1, hi);
      if m == hi || c[m] != '(' then None else Some(m + 1)
  }

  /** `^[ \t]*OptionSettings[ \t]*=[ \t]*\(` at `i` of the slice `c[lo..hi]`; the end of the match. */
  function OptionAt(c: string, lo: nat, hi: nat, i: nat): (r: Option<nat>)
    requires lo <= i <= hi <= |c|
    ensures r.Some? ==> i < r.value <= hi && c[r.value - 1] == '('
  {
    if i > lo && c[i - 1] != '\n' then None
    else
      var j := BlankRun(c, i, hi);
      if NameAt(c, j, hi) then AssignAt(c, j + NAME_LENGTH, hi) else None
  }

  function NextOption(c: string, lo: nat, hi: nat, from: nat): (r: Option<nat>)
    requires lo <= from <= hi <= |c|
    ensures r.Some? ==> from <= r.value <= hi && OptionAt(c, lo, hi, r.value).Some?
    decreases hi - from
  {
    if OptionAt(c, lo, hi, from).Some? then Some(from)
    else if from == hi then None
    else NextOption(c, lo, hi, from + 1)
  }

  lemma {:induction false} OptionIsFirst(c: string, lo: nat, hi: nat, from: nat)
    requires lo <= from <= hi <= |c|
    ensures var r := NextOption(c, lo, hi, from);
            forall i :: from <= i < (if r.Some? then r.value else hi + 1) ==> OptionAt(c, lo, hi, i).None?
    decreases hi - from
  {
    hide OptionAt;
    if from < hi && OptionAt(c, lo, hi, from).None? {
      OptionIsFirst(c, lo, hi, from + 1);
    }
  }

  function SectionEnd(c: string, from: nat): (e: nat)
    requires from <= |c|
    ensures from <= e <= |c|
  {
    var next := NextHeader(c, from, false);
    if next.Some? then next.value else |c|
  }

  /** Exactly one `OptionSettings=(` in the section that starts at `lo`. */
  function OptionSite(c: string, lo: nat, hi: nat): (r: Option<Site>)
    requires lo <= hi <= |c|
    ensures r.Some? ==> lo <= r.value.opening < r.value.sectionEnd == hi && c[r.value.opening] == '('
  {
    var option := NextOption(c, lo, hi, lo);
    if option.None? then None
    else
      var end := OptionAt(c, lo, hi, option.value).value;
      if NextOption(c, lo, hi, end).Some? then None else Some(Site(end - 1, hi))
  }

  /** Exactly one settings section, and exactly one `OptionSettings=(` in it. */
  function Locate(c: string): (r: Option<Site>)
    ensures r.Some? ==> r.value.opening < r.value.sectionEnd <= |c| && c[r.value.opening] == '('
  {
    var section := NextHeader(c, 0, true);
    if section.None? then None
    else
      var lo := HeaderAt(c, section.value).value.end;
      if NextHeader(c, lo, true).Some? then None else OptionSite(c, lo, SectionEnd(c, lo))
  }

  /** With one section header, the site is the option of that section. */
  lemma LocateIs(c: string, section: nat)
    requires NextHeader(c, 0, true) == Some(section)
    requires NextHeader(c, HeaderAt(c, section).value.end, true) == None
    ensures var lo := HeaderAt(c, section).value.end;
            Locate(c) == OptionSite(c, lo, SectionEnd(c, lo))
  {
    hide HeaderAt, NextHeader, OptionSite, SectionEnd;
  }

  lemma OptionSiteIs(c: string, lo: nat, hi: nat, line: nat, end: nat)
    requires lo <= line <= end <= hi <= |c|
    requires NextOption(c, lo, hi, lo) == Some(line) && OptionAt(c, lo, hi, line) == Some(end)
    requires NextOption(c, lo, hi, end) == None
    ensures OptionSite(c, lo, hi) == Some(Site(end - 1, hi))
  {
    hide NextOption, OptionAt;
  }

  // ---- A match depends only on the text up to its end ----

  /** The line of `OptionSettings`, from its start `line` to its parenthesis at `opening`. */
  ghost predicate OptionLine(c: string, line: nat, name: nat, opening: nat) {
    && 0 < line <= name < opening < |c|
    && c[line - 1] == '\n'
    && (forall k :: line <= k < name ==> IsBlank(c[k]))
    && c[name] == 'O'
    && (forall k :: line <= k <= opening ==> c[k] != '\n')
  }

  ghost predicate Agree(c: string, d: string, n: nat) {
    n <= |c| && n <= |d| && c[..n] == d[..n]
  }

  lemma AgreeAt(c: string, d: string, n: nat)
    requires Agree(c, d, n)
    ensures forall k :: 0 <= k < n ==> c[k] == d[k]
  {
    forall k | 0 <= k < n
      ensures c[k] == d[k]
    {
      assert c[..n][k] == d[..n][k];
    }
  }

  lemma AgreeOne(c: string, d: string, n: nat, k: nat)
    requires Agree(c, d, n) && k < n
    ensures k < |c| && k < |d| && c[k] == d[k]
  {
    assert c[..n][k] == d[..n][k];
  }

  lemma AgreeLength(c: string, d: string, n: nat)
    requires Agree(c, d, n)
    ensures n <= |c| && n <= |d|
  {
  }

  lemma AgreeSlice(c: string, d: string, n: nat, i: nat, j: nat)
    requires Agree(c, d, n) && i <= j <= n
    ensures c[i..j] == d[i..j]
  {
    AgreeAt(c, d, n);
    assert forall k :: 0 <= k < j - i ==> c[i..j][k] == d[i..j][k];
  }

  lemma {:induction false} TrailEndLocal(c: string, d: string, n: nat, k: nat, e: nat)
    requires Agree(c, d, n) && k <= e < n
    ensures TrailEnd(c, k, e) == TrailEnd(d, k, e)
    decreases e
  {
    AgreeAt(c, d, n);
    if e > k {
      TrailEndLocal(c, d, n, k, e - 1);
    }
  }

  lemma SpaceRunLocal(c: string, d: string, n: nat, i: nat, q: nat)
    requires Agree(c, d, n) && i <= q < n && !IsSpace(c[q])
    ensures SpaceRun(c, i) == SpaceRun(d, i) <= q
  {
    AgreeAt(c, d, n);
    var j := SpaceRun(c, i);
    var j' := SpaceRun(d, i);
    assert j <= q && j' <= q;
    assert !(j < j') && !(j' < j);
  }

  lemma BodyEndLocal(c: string, d: string, n: nat, i: nat, q: nat)
    requires Agree(c, d, n) && i <= q < n && EndsBody(c[q])
    ensures BodyEnd(c, i) == BodyEnd(d, i) <= q
  {
    AgreeAt(c, d, n);
    var j := BodyEnd(c, i);
    var j' := BodyEnd(d, i);
    assert j <= q && j' <= q;
    assert !(j < j') && !(j' < j);
  }

  lemma BlankRunLocal(c: string, d: string, n: nat, i: nat, hi: nat, hi': nat, q: nat)
    requires Agree(c, d, n) && i <= q < n && n <= hi <= |c| && n <= hi' <= |d| && !IsBlank(c[q])
    ensures BlankRun(c, i, hi) == BlankRun(d, i, hi') <= q
  {
    AgreeAt(c, d, n);
    var j := BlankRun(c, i, hi);
    var j' := BlankRun(d, i, hi');
    assert j <= q && j' <= q;
    assert !(j < j') && !(j' < j);
  }

  /** What an option line says about the text before it. */
  lemma OptionLineFacts(c: string, line: nat, name: nat, opening: nat)
    requires OptionLine(c, line, name, opening)
    ensures 0 < line <= name < opening < |c| && c[line - 1] == '\n' && EndsBody(c[line - 1])
    ensures c[name] == 'O' && !IsSpace(c[name])
    ensures forall k :: line <= k <= name ==> c[k] != '\n' && c[k] != '['
  {
  }

  lemma BracketLocal(c: string, d: string, line: nat, name: nat, opening: nat, j: nat)
    requires OptionLine(c, line, name, opening) && Agree(c, d, opening + 1) && j <= name < opening < |c| && opening < |d|
    ensures BracketAt(c, j) == BracketAt(d, j)
    ensures BracketAt(c, j).Some? ==> BracketAt(c, j).value.end < line
  {
    hide SpaceRun, BodyEnd, TrailEnd, IsSpace, Agree, LineEnd, OptionLine, EndsBody;
    OptionLineFacts(c, line, name, opening);
    AgreeOne(c, d, opening + 1, j);
    if c[j] == '[' {
      BodyEndLocal(c, d, opening + 1, j + 1, line - 1);
      var b := BodyEnd(c, j + 1);
      AgreeOne(c, d, opening + 1, b);
      if c[b] == ']' {
        SpaceRunLocal(c, d, opening + 1, b + 1, name);
        TrailEndLocal(c, d, opening + 1, b + 1, SpaceRun(c, b + 1));
        TrailEndBefore(c, line, name, b + 1, SpaceRun(c, b + 1));
        AgreeSlice(c, d, opening + 1, j + 1, b);
      }
    }
  }

  /** Whatever whitespace a match runs over, it ends at the end of a line before the option's. */
  lemma TrailEndBefore(c: string, line: nat, name: nat, k: nat, e: nat)
    requires 0 < line <= name < |c| && k <= e <= name && k < line
    requires forall i :: line <= i <= name ==> c[i] != '\n'
    ensures TrailEnd(c, k, e).Some? ==> TrailEnd(c, k, e).value < line
  {
  }

  /** Two texts that agree up to the parenthesis of the option have the same header lines there. */
  lemma HeaderLocal(c: string, d: string, line: nat, name: nat, opening: nat, i: nat)
    requires OptionLine(c, line, name, opening) && Agree(c, d, opening + 1) && i <= opening
    ensures i <= |d| && HeaderAt(c, i) == HeaderAt(d, i)
    ensures HeaderAt(c, i).Some? ==> HeaderAt(c, i).value.end < line
  {
    hide SpaceRun, BracketAt, IsSpace, Agree;
    OptionLineFacts(c, line, name, opening);
    AgreeLength(c, d, opening + 1);
    if i > 0 {
      AgreeOne(c, d, opening + 1, i - 1);
    }
    if LineStart(c, i) {
      SpaceRunLocal(c, d, opening + 1, i, name);
      BracketLocal(c, d, line, name, opening, SpaceRun(c, i));
    }
  }

  lemma NameLocal(c: string, d: string, n: nat, j: nat, hi: nat, hi': nat)
    requires Agree(c, d, n) && j + NAME_LENGTH <= n && n <= hi <= |c| && n <= hi' <= |d|
    ensures NameAt(c, j, hi) == NameAt(d, j, hi')
  {
    AgreeSlice(c, d, n, j, j + NAME_LENGTH);
  }

  /** A name that is interrupted by a line break is not matched. */
  lemma NameHasNoBreak(c: string, j: nat, hi: nat, k: nat)
    requires j <= k < j + NAME_LENGTH && k < |c| && c[k] == '\n' && j <= hi <= |c|
    ensures !NameAt(c, j, hi)
  {
    if NameAt(c, j, hi) {
      NameFirst(c, j, hi);
    }
  }

  lemma OptionNameFacts()
    ensures |OPTION_NAME| == NAME_LENGTH && OPTION_NAME[0] == 'O'
    ensures forall k :: 0 <= k < NAME_LENGTH ==> OPTION_NAME[k] != '\n'
  {
  }

  lemma NameFirst(c: string, j: nat, hi: nat)
    requires j <= hi <= |c| && NameAt(c, j, hi)
    ensures c[j] == 'O' && forall k :: j <= k < j + NAME_LENGTH ==> c[k] != '\n'
  {
    hide Spells, OPTION_NAME;
    OptionNameFacts();
    SpellsIs(c[j..j + NAME_LENGTH], OPTION_NAME);
    assert c[j] == c[j..j + NAME_LENGTH][0];
    forall k | j <= k < j + NAME_LENGTH
      ensures c[k] != '\n'
    {
      assert c[k] == c[j..j + NAME_LENGTH][k - j];
    }
  }

  lemma AssignLocal(c: string, d: string, n: nat, j: nat, hi: nat, hi': nat, q: nat)
    requires Agree(c, d, n) && j <= q < n && n <= hi <= |c| && n <= hi' <= |d|
    requires c[q] == '\n' || AssignAt(c, j, hi) == Some(q + 1)
    ensures AssignAt(c, j, hi) == AssignAt(d, j, hi')
  {
    var k := BlankRun(c, j, hi);
    BlankRunLocal(c, d, n, j, hi, hi', if c[q] == '\n' then q else k);
    AgreeOne(c, d, n, k);
    if c[k] == '=' {
      var m := BlankRun(c, k + 1, hi);
      BlankRunLocal(c, d, n, k + 1, hi, hi', q);
      AgreeOne(c, d, n, m);
    }
  }

  /** Before the option's line, a name and what follows it are decided on an earlier line. */
  lemma NameLocalBefore(c: string, d: string, n: nat, hi: nat, hi': nat, line: nat, j: nat)
    requires 0 < line < n <= hi <= |c| && n <= hi' <= |d| && c[line - 1] == '\n' && Agree(c, d, n)
    requires j < line
    ensures NameAt(c, j, hi) == NameAt(d, j, hi')
    ensures NameAt(c, j, hi) ==> j + NAME_LENGTH < line
  {
    hide Agree, NameAt;
    AgreeOne(c, d, n, line - 1);
    if line <= j + NAME_LENGTH {
      NameHasNoBreak(c, j, hi, line - 1);
      NameHasNoBreak(d, j, hi', line - 1);
    } else {
      NameLocal(c, d, n, j, hi, hi');
    }
  }

  lemma OptionLocalBefore(c: string, d: string, line: nat, opening: nat, lo: nat, hi: nat, hi': nat, i: nat)
    requires 0 < line <= opening < |c| && c[line - 1] == '\n' && Agree(c, d, opening + 1)
    requires lo <= i < line && opening < hi <= |c| && opening < hi' <= |d|
    ensures OptionAt(c, lo, hi, i) == OptionAt(d, lo, hi', i)
  {
    hide BlankRun, Agree, NameAt, AssignAt;
    if i > 0 {
      AgreeOne(c, d, opening + 1, i - 1);
    }
    BlankRunLocal(c, d, opening + 1, i, hi, hi', line - 1);
    var j := BlankRun(c, i, hi);
    NameLocalBefore(c, d, opening + 1, hi, hi', line, j);
    if NameAt(c, j, hi) {
      AssignLocal(c, d, opening + 1, j + NAME_LENGTH, hi, hi', line - 1);
    }
  }

  lemma OptionParts(c: string, lo: nat, hi: nat, i: nat)
    requires lo <= i <= hi <= |c|
    ensures var j := BlankRun(c, i, hi);
            OptionAt(c, lo, hi, i) ==
            if (i == lo || c[i - 1] == '\n') && NameAt(c, j, hi) then AssignAt(c, j + NAME_LENGTH, hi) else None
  {
    hide BlankRun, NameAt, AssignAt;
  }

  lemma OptionLocalHere(c: string, d: string, lo: nat, hi: nat, hi': nat, i: nat)
    requires lo <= i < hi <= |c| && OptionAt(c, lo, hi, i).Some?
    requires Agree(c, d, OptionAt(c, lo, hi, i).value)
    requires OptionAt(c, lo, hi, i).value <= hi' <= |d|
    ensures OptionAt(d, lo, hi', i) == OptionAt(c, lo, hi, i)
  {
    hide BlankRun, Agree, NameAt, AssignAt, OptionAt;
    var end := OptionAt(c, lo, hi, i).value;
    var j := BlankRun(c, i, hi);
    OptionParts(c, lo, hi, i);
    OptionParts(d, lo, hi', i);
    NameFirst(c, j, hi);
    if i > 0 {
      AgreeOne(c, d, end, i - 1);
    }
    BlankRunLocal(c, d, end, i, hi, hi', j);
    NameLocal(c, d, end, j, hi, hi');
    AssignLocal(c, d, end, j + NAME_LENGTH, hi, hi', end - 1);
  }

  /** The option that `Locate` finds stands on a line of its own, after the section header. */
  lemma SiteAnatomy(c: string) returns (lo: nat, line: nat, name: nat)
    requires Locate(c).Some?
    ensures var site := Locate(c).value;
            && OptionLine(c, line, name, site.opening) && lo < line && site.opening < site.sectionEnd
            && NextHeader(c, 0, true).Some? && HeaderAt(c, NextHeader(c, 0, true).value).value.end == lo
            && site.sectionEnd == SectionEnd(c, lo)
            && NextOption(c, lo, site.sectionEnd, lo) == Some(line)
            && OptionAt(c, lo, site.sectionEnd, line) == Some(site.opening + 1)
            && NextOption(c, lo, site.sectionEnd, site.opening + 1) == None
            && NextHeader(c, lo, true) == None
  {
    hide HeaderAt, NextHeader, NextOption, SectionEnd, NameAt;
    lo := HeaderAt(c, NextHeader(c, 0, true).value).value.end;
    var hi := SectionEnd(c, lo);
    line := NextOption(c, lo, hi, lo).value;
    name := BlankRun(c, line, hi);
    NameFirst(c, name, hi);
    assert c[line] != '\n';
    assert LineEnd(c, lo);
  }

  /** The header lines before the option, and the place of the option, survive any change after
      its opening parenthesis. */
  lemma HeadersKept(c: string, d: string, line: nat, name: nat, opening: nat)
    requires OptionLine(c, line, name, opening) && Agree(c, d, opening + 1)
    ensures forall i :: 0 <= i <= opening ==> HeaderAt(c, i) == HeaderAt(d, i)
    ensures forall i :: line <= i <= opening ==> HeaderAt(c, i).None?
  {
    forall i | 0 <= i <= opening
      ensures HeaderAt(c, i) == HeaderAt(d, i)
      ensures HeaderAt(c, i).Some? ==> HeaderAt(c, i).value.end < line
    {
      HeaderLocal(c, d, line, name, opening, i);
    }
  }

  lemma SectionKept(c: string, d: string, lo: nat, line: nat, name: nat, opening: nat)
    requires OptionLine(c, line, name, opening) && Agree(c, d, opening + 1)
    requires lo < line <= opening < |c| && opening < |d|
    requires NextHeader(c, 0, true).Some? && HeaderAt(c, NextHeader(c, 0, true).value).value.end == lo
    requires opening < SectionEnd(c, lo)
    ensures NextHeader(d, 0, true) == NextHeader(c, 0, true)
    ensures HeaderAt(d, NextHeader(c, 0, true).value) == HeaderAt(c, NextHeader(c, 0, true).value)
    ensures lo <= |d| && opening < SectionEnd(d, lo)
  {
    hide HeaderAt, NextHeader, Spells, SECTION_NAME, OptionLine, Agree;
    HeadersKept(c, d, line, name, opening);
    var section := NextHeader(c, 0, true).value;
    HeaderIsFirst(c, 0, true);
    HeaderIsFirst(d, 0, true);
    HeaderIsFirst(c, lo, false);
    forall i | 0 <= i < section
      ensures !IsHeader(d, i, true)
    {
      SameHeader(c, i, d, i, true);
    }
    SameHeader(c, section, d, section, true);
    assert IsHeader(d, section, true);
    forall i | lo <= i <= opening
      ensures !IsHeader(d, i, false)
    {
      SameHeader(c, i, d, i, false);
    }
  }

  lemma OptionKept(c: string, d: string, lo: nat, line: nat, opening: nat)
    requires 0 < line <= opening < |c| && c[line - 1] == '\n' && Agree(c, d, opening + 1)
    requires lo < line && opening < SectionEnd(c, lo) && opening < SectionEnd(d, lo)
    requires NextOption(c, lo, SectionEnd(c, lo), lo) == Some(line)
    requires OptionAt(c, lo, SectionEnd(c, lo), line) == Some(opening + 1)
    ensures NextOption(d, lo, SectionEnd(d, lo), lo) == Some(line)
    ensures OptionAt(d, lo, SectionEnd(d, lo), line) == Some(opening + 1)
  {
    hide *;
    var hi := SectionEnd(c, lo);
    var hi' := SectionEnd(d, lo);
    OptionIsFirst(c, lo, hi, lo);
    OptionIsFirst(d, lo, hi', lo);
    forall i | lo <= i < line
      ensures OptionAt(d, lo, hi', i).None?
    {
      OptionLocalBefore(c, d, line, opening, lo, hi, hi', i);
    }
    OptionLocalHere(c, d, lo, hi, hi', line);
  }

  /** Nothing written after the opening parenthesis moves the place where it is found. */
  lemma SiteStable(c: string, d: string)
    requires Locate(c).Some? && Locate(d).Some?
    requires Agree(c, d, Locate(c).value.opening + 1)
    ensures Locate(d).value.opening == Locate(c).value.opening
  {
    hide HeaderAt, NextHeader, OptionAt, NextOption, SectionEnd, Agree, OptionLine;
    var opening := Locate(c).value.opening;
    AgreeLength(c, d, opening + 1);
    var lo, line, name := SiteAnatomy(c);
    OptionLineFacts(c, line, name, opening);
    SectionKept(c, d, lo, line, name, opening);
    OptionKept(c, d, lo, line, opening);
  }
}
