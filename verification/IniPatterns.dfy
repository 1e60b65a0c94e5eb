/** The two line patterns of `ini.py` as relations between positions, and that the search finds exactly
    what matches them; and which files can be read at all. */
module IniPatterns {
  import opened Common
  import opened IniScanner
  import opened IniLocator
  import opened IniDocument

  predicate Blanks(c: string, i: nat, j: nat) {
    i <= j <= |c| && forall k :: i <= k < j ==> c[k] == ' ' || c[k] == '\t'
  }

  predicate Spaces(c: string, i: nat, j: nat) {
    i <= j <= |c| && forall k :: i <= k < j ==> IsSpace(c[k])
  }

  // ---- The option ----

  /** The parts of `OptionSettings = (`: the name at `j`, the sign at `k`, the parenthesis at `m`. */
  predicate OptionPieces(c: string, i: nat, hi: nat, j: nat, k: nat, m: nat) {
    && hi <= |c| && Blanks(c, i, j) && j + 14 <= k < m < hi
    && c[j..j + 14] == OPTION_NAME && Blanks(c, j + 14, k) && c[k] == '='
    && Blanks(c, k + 1, m) && c[m] == '('
  }

  /** The option stands at `i`, where a line or the section begins, and its parenthesis before `end`. */
  ghost predicate OptionMatches(c: string, lo: nat, hi: nat, i: nat, end: nat) {
    && lo <= i <= hi <= |c| && (i == lo || c[i - 1] == '\n')
    && exists j: nat, k: nat, m: nat :: OptionPieces(c, i, hi, j, k, m) && end == m + 1
  }

  lemma BlankRunIs(c: string, i: nat, hi: nat, j: nat)
    requires j < hi <= |c| && Blanks(c, i, j) && c[j] != ' ' && c[j] != '\t'
    ensures BlankRun(c, i, hi) == j
  {
    var r := BlankRun(c, i, hi);
    assert !(r < j) && !(j < r);
  }

  lemma BlanksBefore(c: string, i: nat, hi: nat)
    requires i <= hi <= |c|
    ensures Blanks(c, i, BlankRun(c, i, hi))
  {
  }

  lemma NameIff(c: string, j: nat, hi: nat)
    requires j <= hi <= |c|
    ensures NameAt(c, j, hi) <==> j + 14 <= hi && c[j..j + 14] == OPTION_NAME
  {
    hide OPTION_NAME, Spells;
    if j + 14 <= hi {
      SpellsIs(c[j..j + 14], OPTION_NAME);
    }
  }

  lemma NameStarts(c: string, j: nat)
    requires j + 14 <= |c| && c[j..j + 14] == OPTION_NAME
    ensures c[j] != ' ' && c[j] != '\t'
  {
    hide OPTION_NAME;
    OptionNameFacts();
    assert c[j] == c[j..j + 14][0];
  }

  lemma AssignFound(c: string, j: nat, hi: nat, end: nat)
    requires j <= hi <= |c| && AssignAt(c, j, hi) == Some(end)
    ensures end > 0 && exists k: nat :: Blanks(c, j, k) && k < end - 1 < hi && c[k] == '=' && Blanks(c, k + 1, end - 1) && c[end - 1] == '('
  {
    hide BlankRun, IsBlank, Blanks;
    var k := BlankRun(c, j, hi);
    BlanksBefore(c, j, hi);
    BlanksBefore(c, k + 1, hi);
  }

  lemma AssignMatched(c: string, j: nat, hi: nat, k: nat, m: nat)
    requires Blanks(c, j, k) && k < m < hi <= |c| && c[k] == '=' && Blanks(c, k + 1, m) && c[m] == '('
    ensures AssignAt(c, j, hi) == Some(m + 1)
  {
    hide BlankRun, IsBlank;
    BlankRunIs(c, j, hi, k);
    BlankRunIs(c, k + 1, hi, m);
  }

  lemma OptionFound(c: string, lo: nat, hi: nat, i: nat, end: nat)
    requires lo <= i <= hi <= |c| && OptionAt(c, lo, hi, i) == Some(end)
    ensures OptionMatches(c, lo, hi, i, end)
  {
    hide OPTION_NAME, BlankRun, NameAt, AssignAt, Blanks;
    var j := BlankRun(c, i, hi);
    BlanksBefore(c, i, hi);
    NameIff(c, j, hi);
    AssignFound(c, j + NAME_LENGTH, hi, end);
    var k: nat :| Blanks(c, j + 14, k) && k < end - 1 < hi && c[k] == '=' && Blanks(c, k + 1, end - 1);
    BlanksOrder(c, j + 14, k);
    assert OptionPieces(c, i, hi, j, k, end - 1);
  }

  lemma BlanksOrder(c: string, i: nat, j: nat)
    requires Blanks(c, i, j)
    ensures i <= j <= |c|
  {
  }

  lemma OptionMatched(c: string, lo: nat, hi: nat, i: nat, j: nat, k: nat, m: nat)
    requires lo <= i <= hi <= |c| && (i == lo || c[i - 1] == '\n') && OptionPieces(c, i, hi, j, k, m)
    ensures OptionAt(c, lo, hi, i) == Some(m + 1)
  {
    hide OPTION_NAME, BlankRun, NameAt, AssignAt, Blanks;
    NameStarts(c, j);
    BlankRunIs(c, i, hi, j);
    NameIff(c, j, hi);
    AssignMatched(c, j + NAME_LENGTH, hi, k, m);
  }

  /** The search finds the option at a position exactly when the pattern matches there. */
  lemma OptionIff(c: string, lo: nat, hi: nat, i: nat, end: nat)
    requires lo <= i <= hi <= |c|
    ensures OptionAt(c, lo, hi, i) == Some(end) <==> OptionMatches(c, lo, hi, i, end)
  {
    hide OptionAt, OptionPieces;
    if OptionAt(c, lo, hi, i) == Some(end) {
      OptionFound(c, lo, hi, i, end);
    }
    if OptionMatches(c, lo, hi, i, end) {
      var j: nat, k: nat, m: nat :| OptionPieces(c, i, hi, j, k, m) && end == m + 1;
      OptionMatched(c, lo, hi, i, j, k, m);
    }
  }

  // ---- A header ----

  /** The whitespace from `from` has no line end after `end`. */
  ghost predicate NoLaterEnd(c: string, from: nat, end: nat) {
    forall e: nat :: e > end && Spaces(c, from, e) ==> e < |c| && c[e] != '\n'
  }

  /** A bracket at `j`, its body up to the bracket at `b`, and whitespace up to a line end at `end`, the last
      one there is. */
  ghost predicate HeaderParts(c: string, i: nat, j: nat, b: nat, end: nat) {
    && Spaces(c, i, j) && j + 1 < b < |c| && c[j] == '[' && c[b] == ']'
    && (forall k :: j < k < b ==> c[k] != ']' && c[k] != '\r' && c[k] != '\n')
    && Spaces(c, b + 1, end) && (end == |c| || c[end] == '\n')
    && NoLaterEnd(c, b + 1, end)
  }

  ghost predicate HeaderMatches(c: string, i: nat, body: string, end: nat) {
    && i <= |c| && (i == 0 || c[i - 1] == '\n')
    && exists j: nat, b: nat :: HeaderParts(c, i, j, b, end) && body == c[j + 1..b]
  }

  lemma SpaceRunIs(c: string, i: nat, j: nat)
    requires j < |c| && Spaces(c, i, j) && !IsSpace(c[j])
    ensures SpaceRun(c, i) == j
  {
    hide IsSpace;
    var r := SpaceRun(c, i);
    assert !(r < j) && !(j < r);
  }

  lemma SpacesReach(c: string, i: nat, e: nat)
    requires i <= |c|
    ensures Spaces(c, i, e) <==> i <= e <= SpaceRun(c, i)
  {
    hide IsSpace;
    var r := SpaceRun(c, i);
    if r < |c| {
      assert !IsSpace(c[r]);
    }
  }

  lemma BodyEndIs(c: string, i: nat, b: nat)
    requires i <= b < |c| && c[b] == ']' && forall k :: i <= k < b ==> c[k] != ']' && c[k] != '\r' && c[k] != '\n'
    ensures BodyEnd(c, i) == b
  {
    var r := BodyEnd(c, i);
    assert !(r < b) && !(b < r);
  }

  lemma {:induction false} TrailEndIsLast(c: string, k: nat, e: nat)
    requires k <= e <= |c|
    ensures var r := TrailEnd(c, k, e);
            && (r.None? ==> forall x :: k <= x <= e ==> !LineEnd(c, x))
            && (r.Some? ==> forall x :: r.value < x <= e ==> !LineEnd(c, x))
  {
    if !LineEnd(c, e) && e > k {
      TrailEndIsLast(c, k, e - 1);
    }
  }

  lemma BracketIsNoSpace(c: char)
    requires c == '['
    ensures !IsSpace(c)
  {
  }

  /** The search reads a header at a position exactly when the pattern matches there. */
  lemma HeaderIff(c: string, i: nat, body: string, end: nat)
    requires i <= |c|
    ensures HeaderAt(c, i) == Some(Header(body, end)) <==> HeaderMatches(c, i, body, end)
  {
    hide SpaceRun, BodyEnd, TrailEnd, IsSpace;
    if HeaderAt(c, i) == Some(Header(body, end)) {
      HeaderFound(c, i, body, end);
    }
    if HeaderMatches(c, i, body, end) {
      var j: nat, b: nat :| HeaderParts(c, i, j, b, end) && body == c[j + 1..b];
      HeaderMatched(c, i, j, b, end);
    }
  }

  lemma HeaderFound(c: string, i: nat, body: string, end: nat)
    requires i <= |c| && HeaderAt(c, i) == Some(Header(body, end))
    ensures HeaderMatches(c, i, body, end)
  {
    hide SpaceRun, BodyEnd, TrailEnd, IsSpace;
    var j := SpaceRun(c, i);
    var b := BodyEnd(c, j + 1);
    SpacesReach(c, i, j);
    TrailIsLast(c, b + 1, end);
    assert HeaderParts(c, i, j, b, end);
  }

  lemma TrailIsLast(c: string, from: nat, end: nat)
    requires from <= |c|
    ensures TrailEnd(c, from, SpaceRun(c, from)) == Some(end) <==>
              Spaces(c, from, end) && (end == |c| || c[end] == '\n') && NoLaterEnd(c, from, end)
  {
    hide SpaceRun, TrailEnd, Spaces;
    var last := SpaceRun(c, from);
    TrailEndIsLast(c, from, last);
    forall e: nat
      ensures Spaces(c, from, e) <==> from <= e <= last
    {
      SpacesReach(c, from, e);
    }
    var r := TrailEnd(c, from, last);
    if r == Some(end) {
      forall e: nat | e > end && Spaces(c, from, e)
        ensures e < |c| && c[e] != '\n'
      {
        assert !LineEnd(c, e);
      }
    }
    if from <= end <= last && LineEnd(c, end) {
      assert r.Some? && r.value >= end;
      assert Spaces(c, from, r.value);
    }
  }

  lemma HeaderMatched(c: string, i: nat, j: nat, b: nat, end: nat)
    requires i <= |c| && (i == 0 || c[i - 1] == '\n') && HeaderParts(c, i, j, b, end)
    ensures HeaderAt(c, i) == Some(Header(c[j + 1..b], end))
  {
    hide SpaceRun, BodyEnd, TrailEnd, IsSpace;
    BracketIsNoSpace(c[j]);
    SpaceRunIs(c, i, j);
    BodyEndIs(c, j + 1, b);
    TrailIsLast(c, b + 1, end);
  }

  // ---- The place ----

  ghost predicate AnyHeader(c: string, i: nat) {
    exists body, end: nat :: HeaderMatches(c, i, body, end)
  }

  /** The header of the settings section at `section`, up to `lo`; every other one begins inside it. */
  ghost predicate OnlySection(c: string, section: nat, lo: nat) {
    && HeaderMatches(c, section, SECTION_NAME, lo)
    && forall i: nat, end: nat :: HeaderMatches(c, i, SECTION_NAME, end) ==> section <= i < lo
  }

  /** The section that begins at `lo` ends with the next header, or with the file. */
  ghost predicate SectionEnds(c: string, lo: nat, hi: nat) {
    lo <= hi <= |c| && (hi == |c| || AnyHeader(c, hi)) && forall i: nat :: lo <= i < hi ==> !AnyHeader(c, i)
  }

  /** The option at `line`, up to `end`; every other one begins inside it. */
  ghost predicate OnlyOption(c: string, lo: nat, hi: nat, line: nat, end: nat) {
    && OptionMatches(c, lo, hi, line, end)
    && forall i: nat, e: nat :: OptionMatches(c, lo, hi, i, e) ==> line <= i < end
  }

  lemma SettingsHeaderIff(c: string, i: nat)
    requires i <= |c|
    ensures IsHeader(c, i, true) <==> HeaderAt(c, i).Some? && HeaderMatches(c, i, SECTION_NAME, HeaderAt(c, i).value.end)
    ensures forall end: nat :: HeaderMatches(c, i, SECTION_NAME, end) ==> IsHeader(c, i, true) && HeaderAt(c, i).value.end == end
  {
    hide HeaderAt, HeaderMatches, Spells, SECTION_NAME;
    if HeaderAt(c, i).Some? {
      var h := HeaderAt(c, i).value;
      SpellsIs(h.body, SECTION_NAME);
      HeaderIff(c, i, h.body, h.end);
      HeaderIff(c, i, SECTION_NAME, h.end);
    }
    forall end: nat | HeaderMatches(c, i, SECTION_NAME, end)
      ensures IsHeader(c, i, true) && HeaderAt(c, i).value.end == end
    {
      HeaderIff(c, i, SECTION_NAME, end);
      SpellsIs(SECTION_NAME, SECTION_NAME);
    }
  }

  lemma AnyHeaderIff(c: string, i: nat)
    requires i <= |c|
    ensures IsHeader(c, i, false) <==> AnyHeader(c, i)
  {
    hide HeaderAt, HeaderMatches, Spells, SECTION_NAME;
    if HeaderAt(c, i).Some? {
      HeaderIff(c, i, HeaderAt(c, i).value.body, HeaderAt(c, i).value.end);
    }
    if body, end: nat :| HeaderMatches(c, i, body, end) {
      HeaderIff(c, i, body, end);
    }
  }

  lemma MatchesInside(c: string, i: nat, body: string, end: nat)
    ensures HeaderMatches(c, i, body, end) ==> i < end <= |c|
  {
  }

  lemma OnlySectionFound(c: string, section: nat, lo: nat)
    requires OnlySection(c, section, lo)
    ensures NextHeader(c, 0, true) == Some(section) && HeaderAt(c, section) == Some(Header(SECTION_NAME, lo))
    ensures lo <= |c| && NextHeader(c, lo, true) == None
  {
    hide HeaderMatches, NextHeader, IsHeader, HeaderAt, SECTION_NAME;
    MatchesInside(c, section, SECTION_NAME, lo);
    HeaderIff(c, section, SECTION_NAME, lo);
    SettingsHeaderIff(c, section);
    HeaderIsFirst(c, 0, true);
    var first, second := NextHeader(c, 0, true), NextHeader(c, lo, true);
    SettingsHeaderIff(c, first.value);
    if second.Some? {
      SettingsHeaderIff(c, second.value);
    }
  }

  lemma FoundIsOnlySection(c: string, section: nat, lo: nat)
    requires NextHeader(c, 0, true) == Some(section) && HeaderAt(c, section).value.end == lo
    requires NextHeader(c, lo, true) == None
    ensures OnlySection(c, section, lo)
  {
    hide HeaderMatches, NextHeader, IsHeader, HeaderAt, SECTION_NAME;
    SettingsHeaderIff(c, section);
    HeaderIsFirst(c, 0, true);
    HeaderIsFirst(c, lo, true);
    forall i: nat, end: nat | HeaderMatches(c, i, SECTION_NAME, end)
      ensures section <= i < lo
    {
      MatchesInside(c, i, SECTION_NAME, end);
      SettingsHeaderIff(c, i);
    }
  }

  lemma SectionEndsIff(c: string, lo: nat, hi: nat)
    requires lo <= |c|
    ensures SectionEnds(c, lo, hi) <==> SectionEnd(c, lo) == hi
  {
    hide AnyHeader, NextHeader, IsHeader;
    forall i: nat | i <= |c|
      ensures IsHeader(c, i, false) <==> AnyHeader(c, i)
    {
      AnyHeaderIff(c, i);
    }
    HeaderIsFirst(c, lo, false);
    NoHeaderAtEnd(c);
  }

  lemma NoHeaderAtEnd(c: string)
    ensures !AnyHeader(c, |c|)
  {
    hide HeaderMatches;
    if body, end: nat :| HeaderMatches(c, |c|, body, end) {
      MatchesInside(c, |c|, body, end);
    }
  }

  lemma OnlyOptionIff(c: string, lo: nat, hi: nat, line: nat, end: nat)
    requires lo <= hi <= |c|
    ensures OnlyOption(c, lo, hi, line, end) <==>
              && NextOption(c, lo, hi, lo) == Some(line) && OptionAt(c, lo, hi, line) == Some(end)
              && NextOption(c, lo, hi, end) == None
  {
    hide OptionAt, OptionMatches, NextOption;
    forall i: nat, e: nat | lo <= i <= hi
      ensures OptionAt(c, lo, hi, i) == Some(e) <==> OptionMatches(c, lo, hi, i, e)
    {
      OptionIff(c, lo, hi, i, e);
    }
    forall i: nat, e: nat
      ensures OptionMatches(c, lo, hi, i, e) ==> lo <= i < e <= hi
    {
      OptionInside(c, lo, hi, i, e);
    }
    OptionIsFirst(c, lo, hi, lo);
    if lo <= end <= hi {
      OptionIsFirst(c, lo, hi, end);
    }
  }

  lemma OptionInside(c: string, lo: nat, hi: nat, i: nat, e: nat)
    ensures OptionMatches(c, lo, hi, i, e) ==> lo <= i < e <= hi
  {
    hide OPTION_NAME;
  }

  /** One settings section, from `lo` to `hi`, and one option in it, at `line` and up to `end`. */
  ghost predicate Place(c: string, section: nat, lo: nat, hi: nat, line: nat, end: nat) {
    OnlySection(c, section, lo) && SectionEnds(c, lo, hi) && OnlyOption(c, lo, hi, line, end)
  }

  /** The search finds the parenthesis of the settings exactly where there is one settings section and one
      option in it. */
  lemma LocateIff(c: string, opening: nat, hi: nat)
    ensures Locate(c) == Some(Site(opening, hi)) <==>
              exists section: nat, lo: nat, line: nat, end: nat :: Place(c, section, lo, hi, line, end) && end == opening + 1
  {
    hide OnlySection, SectionEnds, OnlyOption, HeaderAt, NextHeader, OptionAt, NextOption, SectionEnd, IsHeader;
    if Locate(c) == Some(Site(opening, hi)) {
      var section := NextHeader(c, 0, true).value;
      SettingsHeaderIff(c, section);
      var lo := HeaderAt(c, section).value.end;
      FoundIsOnlySection(c, section, lo);
      SectionEndsIff(c, lo, hi);
      var line := NextOption(c, lo, hi, lo).value;
      OnlyOptionIff(c, lo, hi, line, opening + 1);
      assert Place(c, section, lo, hi, line, opening + 1);
    }
    if section: nat, lo: nat, line: nat, end: nat :| Place(c, section, lo, hi, line, end) && end == opening + 1 {
      OnlySectionFound(c, section, lo);
      SectionEndsIff(c, lo, hi);
      OnlyOptionIff(c, lo, hi, line, end);
      LocateIs(c, section);
      OptionSiteIs(c, lo, hi, line, end);
    }
  }

  // ---- Readable files ----

  /** A file can be read exactly when it has such a place and the parenthesis there is closed before the
      section ends, around a text in which quotes and parentheses match. */
  lemma ReadableIff(c: string)
    ensures ParseIni(c).Ok? <==>
              && Locate(c).Some?
              && exists k :: Locate(c).value.opening < k < Locate(c).value.sectionEnd && c[k] == ')'
                   && Balanced(c[Locate(c).value.opening + 1..k])
  {
    hide Locate, Closes, Balanced, ParseEntry, IsSplit;
    if Locate(c).Some? {
      var opening := Locate(c).value.opening;
      forall k: nat | opening < k < |c|
        ensures Closes(c, opening, k) <==> c[k] == ')' && Balanced(c[opening + 1..k])
      {
        ScannersAgree(c, opening, k);
      }
      if k: nat :| opening < k < Locate(c).value.sectionEnd && c[k] == ')' && Balanced(c[opening + 1..k]) {
        ClosingIs(c, opening, k);
        BalancedSplits(c[opening + 1..k]);
      }
      var closing := ClosingOf(c, opening);
      if closing.Some? {
        ClosesBounds(c, opening, closing.value);
        if SplitOf(c[opening + 1..closing.value]).None? {
          BalancedSplits(c[opening + 1..closing.value]);
        }
      }
    }
  }
}
