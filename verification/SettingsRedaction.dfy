/** Redacting a settings file for a backup, and getting it back by a restore:
    `_redact_palworld_settings` and its interplay with `merge_palworld_settings`. */
module SettingsRedaction {
  import opened Common
  import opened IniScanner
  import opened IniDocument
  import opened IniSplice
  import opened IniSingleLine
  import opened SettingValues
  import opened SettingsMerge
  import JsonText

  const REDACTED: string := "\"\""

  function RedactedKeys(catalog: Catalog, entries: seq<Entry>): map<string, string> {
    map e | e in entries && e.Keyed? && Secret(catalog, e.key) :: e.key := REDACTED
  }

  ghost function Redact(catalog: Catalog, content: string): Result<string, IniError> {
    var doc := ParseIni(content);
    if doc.Err? then Err(doc.error)
    else if !Cuttables(doc.value) then Err(BadValue)
    else Ok(Render(doc.value, RedactedKeys(catalog, doc.value.entries)))
  }

  method RedactPalworldSettings(catalog: Catalog, content: string) returns (r: Result<string, IniError>)
    ensures r == Redact(catalog, content)
    ensures ParseIni(content).Ok? ==> r.Ok?
  {
    hide ParseIni, Render;
    var doc := Parse(content);
    if doc.Err? {
      return Err(doc.error);
    }
    ParsedIsCuttable(content);
    return Ok(Render(doc.value, RedactedKeys(catalog, doc.value.entries)));
  }

  lemma RedactedIsSpliceable(catalog: Catalog, entries: seq<Entry>)
    ensures Spliceable(REDACTED) && AllSpliceable(RedactedKeys(catalog, entries))
  {
    JsonText.DumpsIsPiece("");
    assert JsonText.Dumps("") == REDACTED;
  }

  /** A redacted file still shows everything but its secrets: if it is accepted, it has the same
      entries, with an empty string for each secret. */
  lemma RedactReads(catalog: Catalog, content: string)
    requires ParseIni(content).Ok?
    ensures Redact(catalog, content).Ok?
    ensures ParseIni(Redact(catalog, content).value).Ok? ==>
              var doc, d := ParseIni(content).value, ParseIni(Redact(catalog, content).value).value;
              && d.prefix == doc.prefix && d.suffix == doc.suffix && |d.entries| == |doc.entries|
              && forall i :: 0 <= i < |doc.entries| ==> RedactedFrom(catalog, doc.entries[i], d.entries[i])
  {
    hide ParseIni, Render, Spliceable;
    ParsedIsCuttable(content);
    var doc := ParseIni(content).value;
    RedactedIsSpliceable(catalog, doc.entries);
    SpliceReparse(content, RedactedKeys(catalog, doc.entries));
    if ParseIni(Redact(catalog, content).value).Ok? {
      var d := ParseIni(Redact(catalog, content).value).value;
      forall i | 0 <= i < |doc.entries|
        ensures RedactedFrom(catalog, doc.entries[i], d.entries[i])
      {
        assert doc.entries[i] in doc.entries;
        assert Spliced(doc.entries[i], d.entries[i], RedactedKeys(catalog, doc.entries));
      }
    }
  }

  ghost predicate RedactedFrom(catalog: Catalog, e: Entry, d: Entry) {
    if e.Keyed? && SecretKey(catalog, e.key) then d.Keyed? && d.key == e.key && d.value == "\"\"" else d == e
  }

  /** One secret with two values: the same key and the same whitespace around. */
  ghost predicate Variants(catalog: Catalog, a: Entry, b: Entry, name: string, lead: string, v: string, w: string, post: string) {
    && IsName(name) && SecretKey(catalog, Strip(name)) && AllSpace(lead) && AllSpace(post)
    && Trimmed(v) && Trimmed(w) && v != "" && w != ""
    && a == ParseEntry(name + "=" + lead + v + post) && b == ParseEntry(name + "=" + lead + w + post)
  }

  /** Two entries that differ at most in the value of a secret. */
  ghost predicate SameButSecret(catalog: Catalog, a: Entry, b: Entry) {
    a == b || exists name, lead, v, w, post :: Variants(catalog, a, b, name, lead, v, w, post)
  }

  /** Nothing of a secret is left: files that differ only in the values of secrets have the same
      redaction, readable or not. */
  lemma RedactHides(catalog: Catalog, content: string, other: string)
    requires ParseIni(content).Ok? && ParseIni(other).Ok?
    requires var a, b := ParseIni(content).value, ParseIni(other).value;
             && a.prefix == b.prefix && a.suffix == b.suffix && |a.entries| == |b.entries|
             && forall i :: 0 <= i < |a.entries| ==> SameButSecret(catalog, a.entries[i], b.entries[i])
    ensures Redact(catalog, content).Ok? && Redact(catalog, other) == Redact(catalog, content)
  {
    hide ParseIni, SameButSecret, RenderEntry, Join;
    ParsedIsCuttable(content);
    ParsedIsCuttable(other);
    var a, b := ParseIni(content).value.entries, ParseIni(other).value.entries;
    var ra, rb := RedactedKeys(catalog, a), RedactedKeys(catalog, b);
    forall i | 0 <= i < |a|
      ensures RenderEntry(a[i], ra) == RenderEntry(b[i], rb)
    {
      RedactedEntry(catalog, a, i);
      RedactedEntry(catalog, b, i);
      SameWithoutValue(catalog, a[i], b[i]);
    }
    assert RenderEntries(a, ra) == RenderEntries(b, rb);
  }

  lemma RedactedEntry(catalog: Catalog, entries: seq<Entry>, i: nat)
    requires i < |entries| && Cuttable(entries[i])
    ensures RenderEntry(entries[i], RedactedKeys(catalog, entries)) ==
            if entries[i].Keyed? && SecretKey(catalog, entries[i].key) then ReplaceValue(entries[i], "\"\"") else entries[i].raw
  {
    var e := entries[i];
    if e.Keyed? && SecretKey(catalog, e.key) {
      assert e in entries && e.key in RedactedKeys(catalog, entries);
    }
  }

  lemma SameWithoutValue(catalog: Catalog, a: Entry, b: Entry)
    requires SameButSecret(catalog, a, b) && Cuttable(a) && Cuttable(b)
    ensures a.Keyed? == b.Keyed?
    ensures if a.Keyed? && SecretKey(catalog, a.key)
            then b.Keyed? && SecretKey(catalog, b.key) && ReplaceValue(a, "\"\"") == ReplaceValue(b, "\"\"")
            else a == b
  {
    hide Variants, ReplaceValue, SecretKey;
    if a != b {
      var name, lead, v, w, post :| Variants(catalog, a, b, name, lead, v, w, post);
      VariantsSame(catalog, a, b, name, lead, v, w, post);
    }
  }

  lemma VariantsSame(catalog: Catalog, a: Entry, b: Entry, name: string, lead: string, v: string, w: string, post: string)
    requires Variants(catalog, a, b, name, lead, v, w, post)
    ensures a.Keyed? && b.Keyed? && Cuttable(a) && Cuttable(b) && SecretKey(catalog, a.key) && SecretKey(catalog, b.key)
    ensures ReplaceValue(a, "\"\"") == ReplaceValue(b, "\"\"")
  {
    hide ParseEntry, IsName, Trimmed, AllSpace, Strip, SecretKey, ReplaceValue;
    ValueCutOut(name, lead, v, post);
    ValueCutOut(name, lead, w, post);
  }

  lemma ValueCutOut(name: string, lead: string, v: string, post: string)
    requires IsName(name) && AllSpace(lead) && AllSpace(post) && Trimmed(v) && v != ""
    ensures var e := ParseEntry(name + "=" + lead + v + post);
            && e.Keyed? && e.key == Strip(name) && Cuttable(e)
            && ReplaceValue(e, "\"\"") == name + "=" + lead + "\"\"" + post
  {
    hide ParseEntry, IsName, Trimmed, AllSpace, Strip;
    EntryOf(name, lead, v, post);
    var e := ParseEntry(name + "=" + lead + v + post);
    assert e.raw[..e.valueStart] == name + "=" + lead;
    assert e.raw[e.valueEnd..] == post;
  }

  /** The value of a restorable entry survives redaction, and putting it back changes no byte. */
  predicate Returns(catalog: Catalog, e: Entry) {
    Restorable(catalog, e) ==>
      if catalog.sensitiveName(e.key) then e.value == REDACTED
      else e.value == "" ==> e.valueStart <= e.valueEnd
  }

  /** When the backup of a file restores that very file. The redacted text must still be accepted by
      the line-based search; keys must be unique and known values valid; a known key that is not
      classified as sensitive must not have a secret-looking name; and no known value may be only
      whitespace (a whitespace value is written back twice). */
  ghost predicate Recoverable(catalog: Catalog, content: string) {
    && ParseIni(content).Ok? && Redact(catalog, content).Ok?
    && ParseIni(Redact(catalog, content).value).Ok?
    && var entries := ParseIni(content).value.entries;
       UniqueKeys(entries) && KnownValid(catalog, entries)
       && forall i :: 0 <= i < |entries| ==> Returns(catalog, entries[i])
  }

  /** Redacting a file for a backup and restoring that backup gives the file back, byte for byte,
      exactly when the file is recoverable. */
  lemma RedactThenMerge(catalog: Catalog, content: string)
    requires ParseIni(content).Ok?
    ensures Redact(catalog, content).Ok?
    ensures Merge(catalog, Redact(catalog, content).value, content) == Ok(content) <==> Recoverable(catalog, content)
  {
    hide ParseIni, Merge, Redact, Mergeable, Merged, UniqueKeys, KnownValid, Returns, SecretsAgree;
    RedactReads(catalog, content);
    var d := Redact(catalog, content).value;
    MergeSucceedsIff(catalog, d, content);
    if Recoverable(catalog, content) {
      RecoverableMerges(catalog, content, d);
    }
    if Merge(catalog, d, content) == Ok(content) {
      MergedMeansRecoverable(catalog, content, d);
    }
  }

  lemma MergeGives(catalog: Catalog, backup: string, current: string)
    ensures Merge(catalog, backup, current).Ok? ==>
              Mergeable(catalog, backup, current) && Merge(catalog, backup, current).value == Merged(catalog, backup, current)
  {
    hide Mergeable, Merged;
  }

  lemma RecoverableMerges(catalog: Catalog, content: string, d: string)
    requires Recoverable(catalog, content) && Redact(catalog, content) == Ok(d)
    ensures Merge(catalog, d, content) == Ok(content)
  {
    hide ParseIni, Merge, Redact, UniqueKeys, KnownValid, Returns, SecretsAgree, Replacements, Render, RedactedFrom;
    RedactReads(catalog, content);
    var c, b := ParseIni(content).value, ParseIni(d).value;
    ParsedIsCuttable(content);
    RedactedMergeable(catalog, c.entries, b.entries);
    assert Mergeable(catalog, d, content);
    RestoredAreSpliceable(catalog, d);
    ReturnsRaws(catalog, content, b.entries);
    SameRaws(content, Replacements(catalog, b.entries));
    assert Merged(catalog, d, content) == content;
    MergeSucceedsIff(catalog, d, content);
    MergeGives(catalog, d, content);
  }

  lemma RedactedMergeable(catalog: Catalog, c: seq<Entry>, b: seq<Entry>)
    requires |b| == |c| && forall i :: 0 <= i < |c| ==> RedactedFrom(catalog, c[i], b[i])
    requires UniqueKeys(c) && KnownValid(catalog, c) && forall i :: 0 <= i < |c| ==> Returns(catalog, c[i])
    ensures UniqueKeys(b) && KnownValid(catalog, b) && RestorableKnown(catalog, b, c) && SecretsAgree(catalog, b, c)
  {
    hide ParseSettingValue;
    forall i | 0 <= i < |c|
      ensures b[i].Keyed? == c[i].Keyed? && (c[i].Keyed? ==> b[i].key == c[i].key)
      ensures ValidValue(catalog, b[i]) && (Restorable(catalog, b[i]) ==> HasKey(c, b[i].key) && b[i].value == c[i].value)
    {
      assert RedactedFrom(catalog, c[i], b[i]) && Returns(catalog, c[i]) && ValidValue(catalog, c[i]);
    }
    forall i, j | 0 <= i < |b| && 0 <= j < |c| && Restorable(catalog, b[i]) && c[j].Keyed?
      && b[i].key == c[j].key && catalog.sensitiveName(c[j].key)
      ensures b[i].value == c[j].value
    {
      assert i == j;
    }
  }

  /** Every restorable entry gets its own value back. */
  lemma ReturnsRaws(catalog: Catalog, content: string, b: seq<Entry>)
    requires ParseIni(content).Ok? && Cuttables(ParseIni(content).value)
    requires UniqueKeys(b) && UniqueKeys(ParseIni(content).value.entries) && |b| == |ParseIni(content).value.entries|
    requires AllSpliceable(Replacements(catalog, b))
    requires forall i :: 0 <= i < |b| ==> RedactedFrom(catalog, ParseIni(content).value.entries[i], b[i])
    requires forall i :: 0 <= i < |b| ==> Returns(catalog, ParseIni(content).value.entries[i])
    ensures RenderEntries(ParseIni(content).value.entries, Replacements(catalog, b)) == Raws(ParseIni(content).value.entries)
  {
    hide ParseIni, ParseEntry, Piece, Spliceable, Replacements, ReplaceValue, Restorable;
    var doc, pieces, inner := ParseParts(content);
    var r := Replacements(catalog, b);
    ReplacementsOf(catalog, b);
    forall i | 0 <= i < |b|
      ensures RenderEntry(doc.entries[i], r) == doc.entries[i].raw
    {
      var e := doc.entries[i];
      assert Piece(pieces[i]) && e == ParseEntry(pieces[i]);
      if e.Keyed? && e.key in r {
        ReturnsOwnValue(catalog, doc.entries, b, i);
        SpliceEntry(pieces[i], r[e.key]);
      }
    }
  }

  lemma ReturnsOwnValue(catalog: Catalog, c: seq<Entry>, b: seq<Entry>, i: nat)
    requires |b| == |c| && i < |c| && UniqueKeys(b) && c[i].Keyed? && c[i].key in Replacements(catalog, b)
    requires forall j :: 0 <= j < |c| ==> RedactedFrom(catalog, c[j], b[j])
    requires Returns(catalog, c[i])
    ensures Replacements(catalog, b)[c[i].key] == c[i].value
    ensures c[i].value == "" ==> c[i].valueStart <= c[i].valueEnd
  {
    ReplacementsOf(catalog, b);
    var j :| 0 <= j < |b| && Restorable(catalog, b[j]) && b[j].key == c[i].key;
    assert RedactedFrom(catalog, c[i], b[i]);
    assert b[i].key == b[j].key;
    assert i == j;
  }

  lemma SameRaws(content: string, replacements: map<string, string>)
    requires ParseIni(content).Ok? && Cuttables(ParseIni(content).value)
    requires RenderEntries(ParseIni(content).value.entries, replacements) == Raws(ParseIni(content).value.entries)
    ensures Render(ParseIni(content).value, replacements) == content
  {
    hide ParseIni, RenderEntries, Raws, ParseEntries, IsSplit;
    var doc, pieces, inner := ParseParts(content);
    SplitJoins(inner, pieces);
  }

  lemma MergedMeansRecoverable(catalog: Catalog, content: string, d: string)
    requires ParseIni(content).Ok? && Redact(catalog, content) == Ok(d) && Merge(catalog, d, content) == Ok(content)
    ensures Recoverable(catalog, content)
  {
    hide ParseIni, Merge, Redact, UniqueKeys, KnownValid, Returns, RestorableKnown, Replacements, RenderEntries, RedactedFrom;
    MergeGives(catalog, d, content);
    RedactReads(catalog, content);
    var c, b := ParseIni(content).value, ParseIni(d).value;
    RestoredAreSpliceable(catalog, d);
    RenderedPieces(content, Replacements(catalog, b.entries));
    RawsOfSame(content, RenderEntries(c.entries, Replacements(catalog, b.entries)));
    forall i | 0 <= i < |c.entries|
      ensures Returns(catalog, c.entries[i])
    {
      ReturnsBack(catalog, content, b.entries, i);
    }
  }

  /** Two lists of pieces that make the same file are the same list. */
  lemma RawsOfSame(content: string, pieces: seq<string>)
    requires ParseIni(content).Ok? && |pieces| == |ParseIni(content).value.entries|
    requires forall i :: 0 <= i < |pieces| ==> Piece(pieces[i])
    requires ParseIni(content).value.prefix + Join(pieces) + ParseIni(content).value.suffix == content
    ensures pieces == Raws(ParseIni(content).value.entries)
  {
    hide ParseIni, Piece, ParseEntry, Join;
    var doc, raws, inner := ParseParts(content);
    assert content[|doc.prefix|..|content| - |doc.suffix|] == inner;
    assert content[|doc.prefix|..|content| - |doc.suffix|] == Join(pieces);
    if pieces != [] {
      SplitUnique(pieces, raws);
    }
  }

  lemma ReturnsBack(catalog: Catalog, content: string, b: seq<Entry>, i: nat)
    requires ParseIni(content).Ok? && i < |ParseIni(content).value.entries| == |b| && UniqueKeys(b)
    requires AllSpliceable(Replacements(catalog, b)) && Cuttables(ParseIni(content).value)
    requires RenderEntries(ParseIni(content).value.entries, Replacements(catalog, b)) == Raws(ParseIni(content).value.entries)
    requires RedactedFrom(catalog, ParseIni(content).value.entries[i], b[i])
    ensures Returns(catalog, ParseIni(content).value.entries[i])
  {
    hide ParseIni, ParseEntry, Piece, Spliceable, Replacements, ReplaceValue, UniqueKeys;
    var doc, pieces, inner := ParseParts(content);
    var e := doc.entries[i];
    if Restorable(catalog, e) {
      ReplacementsOf(catalog, b);
      assert Piece(pieces[i]) && e == ParseEntry(pieces[i]);
      assert RenderEntries(doc.entries, Replacements(catalog, b))[i] == pieces[i];
      SpliceEntry(pieces[i], b[i].value);
    }
  }

  /** On a file whose list stands on one line the redacted text is always readable, so a backup gives
      the file back exactly when its keys are unique, its known values are valid, and each value a
      restore takes survives redaction: no known, non-secret value is only padding or has a
      secret-looking name. */
  lemma RedactThenMergeOneLine(catalog: Catalog, content: string)
    requires ParseIni(content).Ok? && NoBreak(Join(Raws(ParseIni(content).value.entries)))
    ensures Redact(catalog, content).Ok?
    ensures var entries := ParseIni(content).value.entries;
            Merge(catalog, Redact(catalog, content).value, content) == Ok(content) <==>
              && UniqueKeys(entries) && KnownValid(catalog, entries)
              && forall i :: 0 <= i < |entries| ==> Returns(catalog, entries[i])
  {
    hide ParseIni, UniqueKeys, KnownValid, Returns, NoBreak, RenderEntries, Join, Piece, Merge, IsSplit;
    var c := ParseIni(content).value;
    ParsedIsCuttable(content);
    var doc, raws, inner := ParseParts(content);
    var keys := RedactedKeys(catalog, c.entries);
    RedactedIsSpliceable(catalog, c.entries);
    RenderedPieces(content, keys);
    QuotesNoBreak();
    RenderedHaveNoBreak(c.entries, keys, raws);
    OneLineAccepted(content, RenderEntries(c.entries, keys));
    RedactThenMerge(catalog, content);
  }

  lemma QuotesNoBreak()
    ensures NoBreak(REDACTED)
  {
  }
}
