/** Splicing values into a settings file and reading the result back. */
module IniSplice {
  import opened Common
  import opened IniScanner
  import opened IniLocator
  import opened IniDocument

  /** A value that can stand after `key=` in any file: the scanners pass over it as one unit, and
      it has no outer whitespace that would be taken for padding. */
  ghost predicate Spliceable(v: string) {
    Piece(v) && Trimmed(v)
  }

  ghost predicate AllSpliceable(replacements: map<string, string>) {
    forall key :: key in replacements ==> Spliceable(replacements[key])
  }

  /** `after` is `before` with its value replaced, if its key has a replacement. */
  ghost predicate Spliced(before: Entry, after: Entry, replacements: map<string, string>) {
    if before.Keyed? && before.key in replacements then
      after.Keyed? && after.key == before.key && after.value == replacements[before.key]
    else after == before
  }

  ghost predicate AllSpliced(before: seq<Entry>, after: seq<Entry>, replacements: map<string, string>) {
    |before| == |after| && forall i :: 0 <= i < |before| ==> Spliced(before[i], after[i], replacements)
  }

  // ---- One entry ----

  /** Any value the parser cuts out can be spliced into any other file. */
  lemma ValueIsSpliceable(raw: string)
    requires Piece(raw) && ParseEntry(raw).Keyed?
    ensures Spliceable(ParseEntry(raw).value)
  {
    hide IsName, ParseEntry, Piece, Plain, Trimmed, AllSpace;
    var name, lead, post := EntryParts(raw);
    var v := ParseEntry(raw).value;
    NameAndLeadArePlain(name, lead);
    SpacesArePlain(post);
    assert raw == (name + "=" + lead) + v + post;
    PieceMiddle(name + "=" + lead, v, post);
  }

  lemma NameAndLeadArePlain(name: string, lead: string)
    requires IsName(name) && AllSpace(lead)
    ensures Plain(name + "=" + lead)
  {
    SpacesArePlain(lead);
    var t := name + "=" + lead;
    forall i | 0 <= i < |t|
      ensures PlainChar(t[i])
    {
      if i < |name| {
        assert t[i] == name[i];
      } else if i > |name| {
        assert t[i] == lead[i - |name| - 1];
      }
    }
  }

  /** The spliced entry keeps its key, carries the new value, and is again one entry. */
  lemma SpliceEntry(raw: string, v: string)
    requires Piece(raw) && ParseEntry(raw).Keyed? && Spliceable(v)
    ensures Cuttable(ParseEntry(raw))
    ensures var out := ReplaceValue(ParseEntry(raw), v);
            && Piece(out) && out != "" && ParseEntry(out).Keyed?
            && ParseEntry(out).key == ParseEntry(raw).key && ParseEntry(out).value == v
    ensures var out := ReplaceValue(ParseEntry(raw), v);
            out == raw <==> ParseEntry(raw).value == v && (v == "" ==> ParseEntry(raw).valueStart <= ParseEntry(raw).valueEnd)
  {
    hide IsName, ParseEntry, Piece, Plain, Trimmed, AllSpace;
    var name, lead, post := EntryParts(raw);
    var e := ParseEntry(raw);
    var lead' := if e.value == "" then post else lead;
    var out := ReplaceValue(e, v);
    SplicedText(e, name, lead, post, v);
    NameAndLeadArePlain(name, lead');
    SpacesArePlain(post);
    PieceMiddle(name + "=" + lead', v, post);
    EntryOf(name, lead', v, post);
    if e.value == v == "" {
      assert out == raw + post;
    }
  }

  lemma SplicedText(e: Entry, name: string, lead: string, post: string, v: string)
    requires e.Keyed? && Cuttable(e) && e.raw == name + "=" + lead + e.value + post
    requires e.value == "" ==> lead == "" && e.valueStart == |e.raw| && e.valueEnd == |name| + 1
    requires e.value != "" ==> e.valueStart == |name| + 1 + |lead| && e.valueEnd == |e.raw| - |post|
    ensures ReplaceValue(e, v) == (name + "=" + (if e.value == "" then post else lead)) + v + post
    ensures e.value != "" && v == e.value ==> ReplaceValue(e, v) == e.raw
    ensures e.value == "" ==> (ReplaceValue(e, "") == e.raw <==> post == "")
  {
    if e.value == "" {
      assert e.raw[|name| + 1..] == post;
      assert e.raw[..|e.raw|] == e.raw;
    } else {
      assert e.raw[..e.valueStart] == name + "=" + lead;
      assert e.raw[e.valueEnd..] == post;
    }
  }

  // ---- A whole file ----

  /** Reading a file whose entries were rewritten as other pieces: either the line-based search
      no longer accepts the text, or exactly the new pieces come back. */
  lemma Reparse(content: string, pieces: seq<string>)
    requires ParseIni(content).Ok?
    requires forall i :: 0 <= i < |pieces| ==> Piece(pieces[i])
    requires pieces == [] <==> Join(pieces) == ""
    ensures var doc := ParseIni(content).value;
            var out := doc.prefix + Join(pieces) + doc.suffix;
            ParseIni(out) ==
              if Locate(out).None? then Err(BadSection)
              else if |doc.prefix| + |Join(pieces)| >= Locate(out).value.sectionEnd then Err(BeyondSection)
              else Ok(ParsedIni(doc.prefix, ParseEntries(pieces), doc.suffix))
  {
    hide Locate, Closes, ParseEntry, Piece, Balanced, Join;
    var doc, old_, inner := ParseParts(content);
    var text := Join(pieces);
    var out := doc.prefix + text + doc.suffix;
    var k := |doc.prefix| + |text|;
    assert out[..|doc.prefix|] == doc.prefix == content[..|doc.prefix|];
    assert out[|doc.prefix|..k] == text && out[k..] == doc.suffix && out[k] == ')';
    assert out[|doc.prefix| - 1] == '(';
    JoinBalanced(pieces);
    ScannersAgree(out, |doc.prefix| - 1, k);
    ClosingIs(out, |doc.prefix| - 1, k);
    SplitIs(text, pieces);
    if Locate(out).Some? {
      SiteStable(content, out);
    }
  }

  lemma RenderedPieces(content: string, replacements: map<string, string>)
    requires ParseIni(content).Ok? && AllSpliceable(replacements)
    ensures var doc := ParseIni(content).value;
            && (forall i :: 0 <= i < |doc.entries| ==> Cuttable(doc.entries[i]))
            && var pieces := RenderEntries(doc.entries, replacements);
            && (forall i :: 0 <= i < |pieces| ==> Piece(pieces[i]))
            && (pieces == [] <==> Join(pieces) == "")
            && AllSpliced(doc.entries, ParseEntries(pieces), replacements)
  {
    hide Locate, Closes, ParseEntry, Piece, Spliceable, ReplaceValue;
    var doc, raws, inner := ParseParts(content);
    forall i | 0 <= i < |doc.entries|
      ensures Cuttable(doc.entries[i])
      ensures var out := RenderEntry(doc.entries[i], replacements);
              Piece(out) && Spliced(doc.entries[i], ParseEntry(out), replacements)
      ensures RenderEntry(doc.entries[i], replacements) == "" ==> raws[i] == ""
    {
      var e := doc.entries[i];
      assert Piece(raws[i]) && e == ParseEntry(raws[i]);
      if e.Keyed? {
        var name, lead, post := EntryParts(raws[i]);
        if e.key in replacements {
          SpliceEntry(raws[i], replacements[e.key]);
        }
      }
    }
    var pieces := RenderEntries(doc.entries, replacements);
    JoinEmpty(pieces, raws);
  }

  lemma JoinEmpty(pieces: seq<string>, raws: seq<string>)
    requires |pieces| == |raws| && (raws == [] <==> Join(raws) == "")
    requires forall i :: 0 <= i < |raws| ==> pieces[i] == "" ==> raws[i] == ""
    ensures pieces == [] <==> Join(pieces) == ""
  {
    if |raws| == 1 {
      assert raws[0] != "";
    }
  }

  /** The main result of the editor. Whatever values are spliced in, the new text either is refused
      by the line-based search, or reads back as the same prefix, the same suffix and the same
      entries in the same order, each replaced key with its new value and every other entry
      unchanged to the byte. */
  lemma SpliceReparse(content: string, replacements: map<string, string>)
    requires ParseIni(content).Ok? && AllSpliceable(replacements)
    ensures var doc := ParseIni(content).value;
            && (forall i :: 0 <= i < |doc.entries| ==> Cuttable(doc.entries[i]))
            && match ParseIni(Render(doc, replacements))
               case Ok(doc') =>
                 && doc'.prefix == doc.prefix && doc'.suffix == doc.suffix
                 && AllSpliced(doc.entries, doc'.entries, replacements)
               case Err(e) => e == BadSection || e == BeyondSection
  {
    hide Locate, Closes, ParseEntry, Piece, AllSpliceable, AllSpliced, ParseIni, RenderEntry;
    RenderedPieces(content, replacements);
    Reparse(content, RenderEntries(ParseIni(content).value.entries, replacements));
  }

  /** Writing nothing writes the file back unchanged. */
  lemma RenderIdentity(content: string)
    requires ParseIni(content).Ok?
    ensures var doc := ParseIni(content).value;
            (forall i :: 0 <= i < |doc.entries| ==> Cuttable(doc.entries[i])) && Render(doc, map[]) == content
  {
    hide Locate, Closes, ParseEntry, Piece, ParseIni, IsSplit;
    var doc, raws, inner := ParseParts(content);
    RenderedPieces(content, map[]);
    assert RenderEntries(doc.entries, map[]) == raws;
    assert Join(raws) == inner by {
      SplitJoins(inner, raws);
    }
  }

  lemma SplitJoins(inner: string, pieces: seq<string>)
    requires IsSplit(inner, pieces)
    ensures Join(pieces) == inner
  {
  }
}
