/** `ParsedIni`: the settings file as a prefix, a list of raw entries and a suffix.

    The editor never prints a file from its values; it splices new values into the original text.
    `IniSplice.SpliceReparse` is what makes that safe: reading the result gives the same entries in the same
    order, with exactly the spliced values changed. */
module IniDocument {
  import opened Common
  import opened IniScanner
  import opened IniLocator

  datatype IniError = BadSection | BadParentheses | BeyondSection | BadValue

  datatype Entry =
    | Opaque(raw: string)
    | Keyed(raw: string, key: string, value: string, valueStart: nat, valueEnd: nat)

  datatype ParsedIni = ParsedIni(prefix: string, entries: seq<Entry>, suffix: string)

  predicate IsLetter(c: char) {
    'A' <= c <= 'Z' || 'a' <= c <= 'z'
  }

  predicate IsKey(s: string) {
    && s != "" && IsLetter(s[0])
    && forall i :: 0 <= i < |s| ==> IsLetter(s[i]) || '0' <= s[i] <= '9' || s[i] == '_'
  }

  /** `_parse_entry`. For a value that is only whitespace `valueStart` exceeds `valueEnd`. */
  function ParseEntry(raw: string): Entry {
    var equal := FirstEqual(raw, 0);
    if equal.None? then Opaque(raw)
    else
      var key := Strip(raw[..equal.value]);
      if !IsKey(key) then Opaque(raw)
      else
        var after := raw[equal.value + 1..];
        LStripParts(after);
        RStripParts(after);
        var start := equal.value + 1 + (|after| - |LStrip(after)|);
        var end := |raw| - (|after| - |RStrip(after)|);
        Keyed(raw, key, if start >= end then "" else raw[start..end], start, end)
  }

  function ReplaceValue(e: Entry, serialized: string): string
    requires e.Keyed? && e.valueStart <= |e.raw| && e.valueEnd <= |e.raw|
  {
    e.raw[..e.valueStart] + serialized + e.raw[e.valueEnd..]
  }

  predicate Cuttable(e: Entry) {
    e.Keyed? ==> e.valueStart <= |e.raw| && e.valueEnd <= |e.raw|
  }

  function RenderEntry(e: Entry, replacements: map<string, string>): string
    requires Cuttable(e)
  {
    if e.Keyed? && e.key in replacements then ReplaceValue(e, replacements[e.key]) else e.raw
  }

  function RenderEntries(entries: seq<Entry>, replacements: map<string, string>): (r: seq<string>)
    requires forall i :: 0 <= i < |entries| ==> Cuttable(entries[i])
    ensures |r| == |entries|
    ensures forall i :: 0 <= i < |entries| ==> r[i] == RenderEntry(entries[i], replacements)
  {
    seq(|entries|, i requires 0 <= i < |entries| => RenderEntry(entries[i], replacements))
  }

  function Render(doc: ParsedIni, replacements: map<string, string>): string
    requires forall i :: 0 <= i < |doc.entries| ==> Cuttable(doc.entries[i])
  {
    doc.prefix + Join(RenderEntries(doc.entries, replacements)) + doc.suffix
  }

  function ParseEntries(pieces: seq<string>): (r: seq<Entry>)
    ensures |r| == |pieces| && forall i :: 0 <= i < |pieces| ==> r[i] == ParseEntry(pieces[i])
  {
    seq(|pieces|, i requires 0 <= i < |pieces| => ParseEntry(pieces[i]))
  }

  ghost function ParseIni(content: string): Result<ParsedIni, IniError> {
    var site := Locate(content);
    if site.None? then Err(BadSection)
    else
      var opening := site.value.opening;
      var closing := ClosingOf(content, opening);
      if closing.None? then Err(BadParentheses)
      else if closing.value >= site.value.sectionEnd then Err(BeyondSection)
      else
        var pieces := SplitOf(content[opening + 1..closing.value]);
        if pieces.None? then Err(BadValue)
        else Ok(ParsedIni(content[..opening + 1], ParseEntries(pieces.value), content[closing.value..]))
  }

  method Parse(content: string) returns (r: Result<ParsedIni, IniError>)
    ensures r == ParseIni(content)
  {
    hide Locate, ClosingOf, SplitOf, ParseEntry;
    var site := Locate(content);
    if site.None? {
      return Err(BadSection);
    }
    var opening := site.value.opening;
    var closing := FindClosingParenthesis(content, opening);
    if closing.None? {
      return Err(BadParentheses);
    }
    if closing.value >= site.value.sectionEnd {
      return Err(BeyondSection);
    }
    var pieces := SplitEntries(content[opening + 1..closing.value]);
    if pieces.None? {
      return Err(BadValue);
    }
    var entries: seq<Entry> := [];
    for i := 0 to |pieces.value|
      invariant entries == ParseEntries(pieces.value)[..i]
    {
      entries := entries + [ParseEntry(pieces.value[i])];
    }
    assert entries == ParseEntries(pieces.value);
    return Ok(ParsedIni(content[..opening + 1], entries, content[closing.value..]));
  }

  // ---- One entry ----

  /** The text before a top-level `=`: whitespace around a key. */
  ghost predicate IsName(name: string) {
    IsKey(Strip(name)) && Plain(name) && forall i :: 0 <= i < |name| ==> name[i] != '='
  }

  /** An entry written as a key, `=`, and a value with whitespace around it reads back as that. */
  lemma EntryOf(name: string, lead: string, v: string, post: string)
    requires IsName(name) && AllSpace(lead) && AllSpace(post) && Trimmed(v)
    ensures var e := ParseEntry(name + "=" + lead + v + post);
            && e.Keyed? && e.key == Strip(name) && e.value == v && Cuttable(e)
            && e.raw == name + "=" + lead + v + post
            && (v != "" ==> e.valueStart == |name| + 1 + |lead| && e.valueEnd == |name| + 1 + |lead| + |v|)
            && (v == "" ==> e.valueStart == |e.raw| && e.valueEnd == |name| + 1)
  {
    hide IsSpace, Strip, LStrip, RStrip, IsKey, AllSpace, Trimmed, FirstEqual, Plain;
    var raw := name + "=" + lead + v + post;
    NameEqual(name, raw);
    assert raw[..|name|] == name && raw[|name| + 1..] == lead + v + post;
    ValueEnds(lead, v, post);
    if v != "" {
      assert raw[|name| + 1 + |lead|..|name| + 1 + |lead| + |v|] == v;
    }
  }

  /** How much is stripped from either side of a value. */
  lemma ValueEnds(lead: string, v: string, post: string)
    requires AllSpace(lead) && AllSpace(post) && Trimmed(v)
    ensures |LStrip(lead + v + post)| == if v == "" then 0 else |v| + |post|
    ensures |RStrip(lead + v + post)| == if v == "" then 0 else |lead| + |v|
  {
    hide IsSpace, LStrip, RStrip;
    var after := lead + v + post;
    if v == "" {
      assert after == (lead + post) + "" && after == "" + (lead + post);
      LStripOf(lead + post, "");
      RStripOf("", lead + post);
    } else {
      assert after == lead + (v + post) && after == (lead + v) + post;
      LStripOf(lead, v + post);
      RStripOf(lead + v, post);
    }
  }

  lemma NameEqual(name: string, raw: string)
    requires IsName(name) && |name| < |raw| && raw[..|name|] == name && raw[|name|] == '='
    ensures FirstEqual(raw, 0) == Some(|name|)
  {
    PlainRun(START, name);
    forall j: nat | j < |name|
      ensures !EqualAt(raw, j)
    {
      assert raw[j] == raw[..|name|][j];
    }
    assert EqualAt(raw, |name|);
  }

  /** Conversely, every entry with a key has that form. */
  lemma EntryParts(raw: string) returns (name: string, lead: string, post: string)
    requires ParseEntry(raw).Keyed? && Piece(raw)
    ensures var e := ParseEntry(raw);
            && raw == name + "=" + lead + e.value + post && e.raw == raw
            && IsName(name) && e.key == Strip(name) && AllSpace(lead) && AllSpace(post) && Trimmed(e.value)
            && Cuttable(e)
            && (e.value == "" ==> lead == "" && e.valueStart == |raw| && e.valueEnd == |name| + 1)
            && (e.value != "" ==> e.valueStart == |name| + 1 + |lead| && e.valueEnd == |raw| - |post|)
  {
    hide IsSpace, Strip, Piece, FirstEqual, IsName, IsKey, Trimmed, AllSpace, LStrip, RStrip;
    var equal := FirstEqual(raw, 0).value;
    name := raw[..equal];
    NameIsPlain(raw, equal);
    var after := raw[equal + 1..];
    var v;
    lead, v, post := AfterParts(after);
    RawParts(raw, equal, lead, v, post);
  }

  lemma RawParts(raw: string, equal: nat, lead: string, v: string, post: string)
    requires equal < |raw| && raw[equal] == '=' && raw[equal + 1..] == lead + v + post
    ensures raw == raw[..equal] + "=" + lead + v + post
    ensures raw[equal + 1 + |lead|..|raw| - |post|] == v
  {
    CutAt(raw, equal);
    var after := raw[equal + 1..];
    assert raw[..equal] + "=" + (lead + v + post) == raw[..equal] + "=" + lead + v + post;
    MiddleOf(lead, v, post);
    SliceOf(raw, equal + 1, |lead|, |lead| + |v|);
  }

  lemma CutAt(raw: string, i: nat)
    requires i < |raw|
    ensures raw == raw[..i] + [raw[i]] + raw[i + 1..] && |raw[i + 1..]| == |raw| - i - 1
  {
  }

  lemma MiddleOf(a: string, b: string, c: string)
    ensures (a + b + c)[|a|..|a| + |b|] == b
  {
  }

  lemma SliceOf(s: string, i: nat, j: nat, k: nat)
    requires i <= |s| && j <= k <= |s| - i
    ensures s[i..][j..k] == s[i + j..i + k]
  {
  }

  /** What follows the `=`: whitespace, a trimmed value, whitespace. */
  lemma AfterParts(after: string) returns (lead: string, v: string, post: string)
    ensures after == lead + v + post && AllSpace(lead) && AllSpace(post) && Trimmed(v)
    ensures |LStrip(after)| <= |after| && |RStrip(after)| <= |after|
    ensures v != "" ==> |lead| == |after| - |LStrip(after)| && |post| == |after| - |RStrip(after)|
    ensures v == "" ==> lead == "" && LStrip(after) == "" && RStrip(after) == ""
  {
    hide IsSpace;
    LStripParts(after);
    RStripParts(after);
    if LStrip(after) == "" {
      lead, v, post := "", "", after;
      assert after[..|after|] == after;
      AllSpaceRStrip(after);
    } else {
      StripsMeet(after);
      lead := after[..|after| - |LStrip(after)|];
      post := after[|RStrip(after)|..];
      v := after[|lead|..|RStrip(after)|];
    }
  }

  lemma AllSpaceRStrip(s: string)
    requires AllSpace(s)
    ensures RStrip(s) == "" && LStrip(s) == ""
  {
    RStripOf("", s);
    LStripOf(s, "");
    assert "" + s == s + "" == s;
  }

  lemma StripsMeet(s: string)
    requires LStrip(s) != ""
    ensures |s| - |LStrip(s)| < |RStrip(s)|
    ensures |RStrip(s)| <= |s| && |LStrip(s)| <= |s| && Trimmed(s[|s| - |LStrip(s)|..|RStrip(s)|])
  {
    LStripParts(s);
    RStripParts(s);
    var i := |s| - |LStrip(s)|;
    assert LStrip(s)[0] == s[i];
  }

  lemma NameIsPlain(raw: string, equal: nat)
    requires FirstEqual(raw, 0) == Some(equal) && IsKey(Strip(raw[..equal]))
    ensures IsName(raw[..equal])
  {
    var name := raw[..equal];
    var pre, post := StripParts(name);
    SpacesArePlain(pre);
    SpacesArePlain(post);
    KeyIsPlain(Strip(name));
    assert Plain(name) by {
      assert Plain(pre + Strip(name) + post);
    }
  }

  lemma SpacesArePlain(s: string)
    requires AllSpace(s)
    ensures Plain(s) && forall i :: 0 <= i < |s| ==> s[i] != '='
  {
  }

  lemma KeyIsPlain(s: string)
    requires IsKey(s)
    ensures Plain(s) && forall i :: 0 <= i < |s| ==> s[i] != '='
  {
  }

  // ---- A whole file ----

  function Raws(entries: seq<Entry>): (r: seq<string>)
    ensures |r| == |entries| && forall i :: 0 <= i < |entries| ==> r[i] == entries[i].raw
  {
    seq(|entries|, i requires 0 <= i < |entries| => entries[i].raw)
  }

  /** What an accepted file is made of. */
  lemma ParseParts(content: string) returns (doc: ParsedIni, pieces: seq<string>, inner: string)
    requires ParseIni(content).Ok?
    ensures doc == ParseIni(content).value && content == doc.prefix + inner + doc.suffix
    ensures IsSplit(inner, pieces) && doc.entries == ParseEntries(pieces) && pieces == Raws(doc.entries)
    ensures Locate(content).Some? && |doc.prefix| == Locate(content).value.opening + 1
    ensures |doc.prefix| + |inner| < Locate(content).value.sectionEnd
    ensures doc.prefix[|doc.prefix| - 1] == '(' && doc.suffix != "" && doc.suffix[0] == ')'
  {
    hide Locate, IsSplit, Closes, ParseEntry;
    doc := ParseIni(content).value;
    var opening := Locate(content).value.opening;
    var closing := ClosingOf(content, opening).value;
    ClosesBounds(content, opening, closing);
    inner := content[opening + 1..closing];
    pieces := SplitOf(inner).value;
    forall i | 0 <= i < |pieces|
      ensures ParseEntry(pieces[i]).raw == pieces[i]
    {
      ParseEntryRaw(pieces[i]);
    }
  }

  lemma ClosesBounds(content: string, opening: nat, k: nat)
    requires Closes(content, opening, k) && content[opening] == '('
    ensures opening < k < |content| && content[k] == ')' && Balanced(content[opening + 1..k])
  {
    ScannersAgree(content, opening, k);
  }

  lemma ParseEntryRaw(raw: string)
    ensures ParseEntry(raw).raw == raw
  {
  }

  /** The three scanners agree on an accepted file: the text between the parentheses is never
      refused when it is cut into entries. */
  lemma SplitNeverFails(content: string)
    ensures ParseIni(content) != Err(BadValue)
  {
    hide Locate, Closes, Balanced;
    var site := Locate(content);
    if site.Some? {
      var opening := site.value.opening;
      var closing := ClosingOf(content, opening);
      if closing.Some? {
        ClosesBounds(content, opening, closing.value);
        BalancedSplits(content[opening + 1..closing.value]);
      }
    }
  }
}
