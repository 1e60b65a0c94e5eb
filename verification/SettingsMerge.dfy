/** Restoring the settings of a backup into the current file: `merge_palworld_settings`. */
module SettingsMerge {
  import opened Common
  import opened IniScanner
  import opened IniDocument
  import opened IniSplice
  import opened IniSingleLine
  import opened SettingValues

  datatype MergeError = MergeUnsafe | SecretChanged

  ghost predicate UniqueKeys(entries: seq<Entry>) {
    forall i, j :: 0 <= i < j < |entries| && entries[i].Keyed? && entries[j].Keyed? ==> entries[i].key != entries[j].key
  }

  ghost predicate HasKey(entries: seq<Entry>, key: string) {
    exists i :: 0 <= i < |entries| && entries[i].Keyed? && entries[i].key == key
  }

  /** The dictionary that the loop over `entries` builds. */
  function EntryMap(entries: seq<Entry>): map<string, Entry> {
    if entries == [] then map[]
    else
      var last := entries[|entries| - 1];
      var rest := EntryMap(entries[..|entries| - 1]);
      if last.Keyed? then rest[last.key := last] else rest
  }

  /** A known entry whose value a restore takes from the backup. */
  predicate Restorable(catalog: Catalog, e: Entry) {
    e.Keyed? && e.key in catalog.definitions && !catalog.definitions[e.key].kind.Sensitive?
  }

  predicate Secret(catalog: Catalog, key: string) {
    (key in catalog.definitions && catalog.definitions[key].kind.Sensitive?) || catalog.sensitiveName(key)
  }

  predicate ValidValue(catalog: Catalog, e: Entry) {
    (e.Keyed? && e.key in catalog.definitions && Editable(catalog.definitions[e.key].kind)) ==>
      ParseSettingValue(catalog.definitions[e.key], e.value).Ok?
  }

  ghost predicate KnownValid(catalog: Catalog, entries: seq<Entry>) {
    forall i :: 0 <= i < |entries| ==> ValidValue(catalog, entries[i])
  }

  function Replacements(catalog: Catalog, entries: seq<Entry>): map<string, string> {
    if entries == [] then map[]
    else
      var last := entries[|entries| - 1];
      var rest := Replacements(catalog, entries[..|entries| - 1]);
      if Restorable(catalog, last) then rest[last.key := last.value] else rest
  }

  ghost predicate RestorableKnown(catalog: Catalog, backup: seq<Entry>, current: seq<Entry>) {
    forall i :: 0 <= i < |backup| && Restorable(catalog, backup[i]) ==> HasKey(current, backup[i].key)
  }

  ghost predicate SecretsKept(catalog: Catalog, current: seq<Entry>, merged: map<string, Entry>) {
    forall i :: 0 <= i < |current| && current[i].Keyed? && Secret(catalog, current[i].key) ==>
      current[i].key in merged && merged[current[i].key].Keyed? && merged[current[i].key].value == current[i].value
  }

  ghost predicate Cuttables(doc: ParsedIni) {
    forall i :: 0 <= i < |doc.entries| ==> Cuttable(doc.entries[i])
  }

  /** Everything that is checked before the merged text is rendered. */
  ghost predicate Mergeable(catalog: Catalog, backup: string, current: string) {
    && ParseIni(backup).Ok? && ParseIni(current).Ok?
    && var b, c := ParseIni(backup).value.entries, ParseIni(current).value.entries;
       && UniqueKeys(b) && UniqueKeys(c) && KnownValid(catalog, c) && KnownValid(catalog, b)
       && RestorableKnown(catalog, b, c) && Cuttables(ParseIni(current).value)
  }

  ghost function Merged(catalog: Catalog, backup: string, current: string): string
    requires Mergeable(catalog, backup, current)
  {
    Render(ParseIni(current).value, Replacements(catalog, ParseIni(backup).value.entries))
  }

  ghost function Merge(catalog: Catalog, backup: string, current: string): Result<string, MergeError> {
    if !Mergeable(catalog, backup, current) then Err(MergeUnsafe)
    else
      var merged := Merged(catalog, backup, current);
      var reread := ParseIni(merged);
      if reread.Err? then Err(MergeUnsafe)
      else if !UniqueKeys(reread.value.entries) || !KnownValid(catalog, reread.value.entries) then Err(MergeUnsafe)
      else if !SecretsKept(catalog, ParseIni(current).value.entries, EntryMap(reread.value.entries)) then Err(SecretChanged)
      else Ok(merged)
  }

  // ---- Dictionaries ----

  lemma {:induction false} EntryMapOf(entries: seq<Entry>)
    requires UniqueKeys(entries)
    ensures forall key :: key in EntryMap(entries) <==> HasKey(entries, key)
    ensures forall i :: 0 <= i < |entries| && entries[i].Keyed? ==>
              entries[i].key in EntryMap(entries) && EntryMap(entries)[entries[i].key] == entries[i]
  {
    if entries != [] {
      var n := |entries| - 1;
      var rest := entries[..n];
      EntryMapOf(rest);
      HasKeySnoc(entries);
      forall i | 0 <= i < |entries| && entries[i].Keyed?
        ensures entries[i].key in EntryMap(entries) && EntryMap(entries)[entries[i].key] == entries[i]
      {
        if i < n {
          assert rest[i] == entries[i];
        }
      }
    }
  }

  lemma HasKeySnoc(entries: seq<Entry>)
    requires entries != []
    ensures var n := |entries| - 1;
            forall key :: HasKey(entries, key) <==>
              HasKey(entries[..n], key) || (entries[n].Keyed? && entries[n].key == key)
  {
    var n := |entries| - 1;
    forall key
      ensures HasKey(entries, key) <==> HasKey(entries[..n], key) || (entries[n].Keyed? && entries[n].key == key)
    {
      if HasKey(entries[..n], key) {
        var i :| 0 <= i < n && entries[..n][i].Keyed? && entries[..n][i].key == key;
        assert entries[i].key == key;
      }
      if HasKey(entries, key) {
        var i :| 0 <= i < |entries| && entries[i].Keyed? && entries[i].key == key;
        if i < n {
          assert entries[..n][i].key == key;
        }
      }
    }
  }

  /** The values a restore takes are exactly those of the restorable entries of the backup. */
  lemma {:induction false} ReplacementsOf(catalog: Catalog, entries: seq<Entry>)
    requires UniqueKeys(entries)
    ensures forall i :: 0 <= i < |entries| && Restorable(catalog, entries[i]) ==>
              entries[i].key in Replacements(catalog, entries) && Replacements(catalog, entries)[entries[i].key] == entries[i].value
    ensures forall key :: key in Replacements(catalog, entries) ==>
              exists i :: 0 <= i < |entries| && Restorable(catalog, entries[i]) && entries[i].key == key
  {
    if entries != [] {
      var n := |entries| - 1;
      var rest := entries[..n];
      ReplacementsOf(catalog, rest);
      forall i | 0 <= i < |entries| && Restorable(catalog, entries[i])
        ensures entries[i].key in Replacements(catalog, entries) && Replacements(catalog, entries)[entries[i].key] == entries[i].value
      {
        if i < n {
          assert rest[i] == entries[i];
        }
      }
      forall key | key in Replacements(catalog, entries)
        ensures exists i :: 0 <= i < |entries| && Restorable(catalog, entries[i]) && entries[i].key == key
      {
        if key in Replacements(catalog, rest) {
          var i :| 0 <= i < |rest| && Restorable(catalog, rest[i]) && rest[i].key == key;
          assert entries[i].key == key;
        } else {
          assert entries[n].key == key;
        }
      }
    }
  }

  lemma RestoredAreSpliceable(catalog: Catalog, backup: string)
    requires ParseIni(backup).Ok? && UniqueKeys(ParseIni(backup).value.entries)
    ensures AllSpliceable(Replacements(catalog, ParseIni(backup).value.entries))
  {
    hide ParseIni, ParseEntry, Piece, Spliceable, UniqueKeys, Replacements;
    var doc, pieces, inner := ParseParts(backup);
    ReplacementsOf(catalog, doc.entries);
    var r := Replacements(catalog, doc.entries);
    forall key | key in r
      ensures Spliceable(r[key])
    {
      var i :| 0 <= i < |doc.entries| && Restorable(catalog, doc.entries[i]) && doc.entries[i].key == key;
      assert Piece(pieces[i]) && doc.entries[i] == ParseEntry(pieces[i]);
      ValueIsSpliceable(pieces[i]);
    }
  }

  // ---- What a merge does ----

  /** The entry that a merge makes of `e`: the value of a restorable backup entry with its key, or
      `e` itself. */
  ghost predicate RestoredFrom(catalog: Catalog, backup: seq<Entry>, e: Entry, merged: Entry) {
    && (e.Keyed? ==> merged.Keyed? && merged.key == e.key)
    && (forall i :: 0 <= i < |backup| && Restorable(catalog, backup[i]) && e.Keyed? && backup[i].key == e.key
          ==> merged.Keyed? && merged.value == backup[i].value)
    && ((forall i :: 0 <= i < |backup| && Restorable(catalog, backup[i]) && e.Keyed? ==> backup[i].key != e.key)
          ==> merged == e)
  }

  lemma SplicedIsRestored(catalog: Catalog, backup: seq<Entry>, e: Entry, merged: Entry)
    requires UniqueKeys(backup) && Spliced(e, merged, Replacements(catalog, backup))
    ensures RestoredFrom(catalog, backup, e, merged)
  {
    hide UniqueKeys;
    ReplacementsOf(catalog, backup);
    var r := Replacements(catalog, backup);
    if e.Keyed? && e.key in r {
      var i :| 0 <= i < |backup| && Restorable(catalog, backup[i]) && backup[i].key == e.key;
    }
  }

  /** What the merged text reads back as, whenever it is accepted at all. */
  lemma MergedReads(catalog: Catalog, backup: string, current: string)
    requires Mergeable(catalog, backup, current) && ParseIni(Merged(catalog, backup, current)).Ok?
    ensures var b, c, m := ParseIni(backup).value, ParseIni(current).value, ParseIni(Merged(catalog, backup, current)).value;
            && m.prefix == c.prefix && m.suffix == c.suffix
            && AllSpliced(c.entries, m.entries, Replacements(catalog, b.entries))
            && |m.entries| == |c.entries|
            && forall i :: 0 <= i < |c.entries| ==> RestoredFrom(catalog, b.entries, c.entries[i], m.entries[i])
  {
    hide ParseIni, UniqueKeys, KnownValid, RestorableKnown, Render, RestoredFrom, Replacements, Spliced;
    var b, c := ParseIni(backup).value, ParseIni(current).value;
    RestoredAreSpliceable(catalog, backup);
    SpliceReparse(current, Replacements(catalog, b.entries));
    var m := ParseIni(Merged(catalog, backup, current)).value;
    forall i | 0 <= i < |c.entries|
      ensures RestoredFrom(catalog, b.entries, c.entries[i], m.entries[i])
    {
      SplicedIsRestored(catalog, b.entries, c.entries[i], m.entries[i]);
    }
  }

  /** The two checks that the merge repeats on its own result never fail. */
  lemma RecheckPasses(catalog: Catalog, backup: string, current: string)
    requires Mergeable(catalog, backup, current) && ParseIni(Merged(catalog, backup, current)).Ok?
    ensures var m := ParseIni(Merged(catalog, backup, current)).value.entries;
            UniqueKeys(m) && KnownValid(catalog, m)
  {
    hide ParseIni, RestorableKnown, Merged, ParseSettingValue, Replacements;
    MergedReads(catalog, backup, current);
    var b, c, m := ParseIni(backup).value.entries, ParseIni(current).value.entries, ParseIni(Merged(catalog, backup, current)).value.entries;
    SplicedKeys(c, m, Replacements(catalog, b));
    ReplacementsOf(catalog, b);
    forall i | 0 <= i < |m|
      ensures ValidValue(catalog, m[i])
    {
      assert Spliced(c[i], m[i], Replacements(catalog, b)) && ValidValue(catalog, c[i]);
      if c[i].Keyed? && c[i].key in Replacements(catalog, b) {
        var j :| 0 <= j < |b| && Restorable(catalog, b[j]) && b[j].key == c[i].key;
        assert ValidValue(catalog, b[j]) && m[i].value == b[j].value && m[i].key == b[j].key;
      }
    }
  }

  /** Splicing does not touch the keys. */
  lemma SplicedKeys(c: seq<Entry>, m: seq<Entry>, replacements: map<string, string>)
    requires AllSpliced(c, m, replacements)
    ensures forall i :: 0 <= i < |c| ==> c[i].Keyed? == m[i].Keyed? && (c[i].Keyed? ==> c[i].key == m[i].key)
    ensures UniqueKeys(c) <==> UniqueKeys(m)
  {
    forall i | 0 <= i < |c|
      ensures c[i].Keyed? == m[i].Keyed? && (c[i].Keyed? ==> c[i].key == m[i].key)
    {
      assert Spliced(c[i], m[i], replacements);
    }
  }

  /** A backup value may replace a current one under a name that looks secret only if both agree. */
  ghost predicate SecretsAgree(catalog: Catalog, backup: seq<Entry>, current: seq<Entry>) {
    forall i, j ::
      (0 <= i < |backup| && 0 <= j < |current| && Restorable(catalog, backup[i]) && current[j].Keyed?
       && backup[i].key == current[j].key && catalog.sensitiveName(current[j].key)) ==>
        backup[i].value == current[j].value
  }

  lemma SecretsKeptIff(catalog: Catalog, backup: string, current: string)
    requires Mergeable(catalog, backup, current) && ParseIni(Merged(catalog, backup, current)).Ok?
    ensures SecretsKept(catalog, ParseIni(current).value.entries, EntryMap(ParseIni(Merged(catalog, backup, current)).value.entries))
       <==> SecretsAgree(catalog, ParseIni(backup).value.entries, ParseIni(current).value.entries)
  {
    hide ParseIni, RestorableKnown, KnownValid, Merged, Replacements, EntryMap;
    RecheckPasses(catalog, backup, current);
    MergedReads(catalog, backup, current);
    var b, c, m := ParseIni(backup).value.entries, ParseIni(current).value.entries, ParseIni(Merged(catalog, backup, current)).value.entries;
    SplicedKeys(c, m, Replacements(catalog, b));
    EntryMapOf(m);
    SecretsKeptIffOf(catalog, b, c, m);
  }

  lemma SecretsKeptIffOf(catalog: Catalog, b: seq<Entry>, c: seq<Entry>, m: seq<Entry>)
    requires |m| == |c| && forall i :: 0 <= i < |c| ==> RestoredFrom(catalog, b, c[i], m[i])
    requires forall i :: 0 <= i < |m| && m[i].Keyed? ==> m[i].key in EntryMap(m) && EntryMap(m)[m[i].key] == m[i]
    ensures SecretsKept(catalog, c, EntryMap(m)) <==> SecretsAgree(catalog, b, c)
  {
    hide EntryMap;
    if SecretsKept(catalog, c, EntryMap(m)) {
      forall i, j | 0 <= i < |b| && 0 <= j < |c| && Restorable(catalog, b[i]) && c[j].Keyed?
        && b[i].key == c[j].key && catalog.sensitiveName(c[j].key)
        ensures b[i].value == c[j].value
      {
        assert RestoredFrom(catalog, b, c[j], m[j]);
        assert EntryMap(m)[m[j].key] == m[j];
      }
    }
    if SecretsAgree(catalog, b, c) {
      forall j | 0 <= j < |c| && c[j].Keyed? && Secret(catalog, c[j].key)
        ensures c[j].key in EntryMap(m) && EntryMap(m)[c[j].key].Keyed? && EntryMap(m)[c[j].key].value == c[j].value
      {
        assert RestoredFrom(catalog, b, c[j], m[j]);
        assert EntryMap(m)[m[j].key] == m[j];
        if i :| 0 <= i < |b| && Restorable(catalog, b[i]) && b[i].key == c[j].key {
          assert m[j].value == b[i].value;
        }
      }
    }
  }

  /** When a merge succeeds, exactly. Besides the checks on the two files, the merged text must still
      be accepted by the line-based search, and no value with a secret-looking name may change. */
  lemma MergeSucceedsIff(catalog: Catalog, backup: string, current: string)
    ensures Merge(catalog, backup, current).Ok? <==>
              && Mergeable(catalog, backup, current)
              && ParseIni(Merged(catalog, backup, current)).Ok?
              && SecretsAgree(catalog, ParseIni(backup).value.entries, ParseIni(current).value.entries)
  {
    hide Mergeable, ParseIni, Merged, UniqueKeys, KnownValid, SecretsKept, SecretsAgree, EntryMap;
    if Mergeable(catalog, backup, current) && ParseIni(Merged(catalog, backup, current)).Ok? {
      RecheckPasses(catalog, backup, current);
      SecretsKeptIff(catalog, backup, current);
    }
  }

  /** The main result of a merge. Reading the merged file gives the entries of the current file in
      their order, where every known non-secret entry of the backup has the backup's value, every
      other entry is the current one to the byte, and every secret has its current value. */
  lemma MergeIsSplice(catalog: Catalog, backup: string, current: string)
    requires Merge(catalog, backup, current).Ok?
    ensures ParseIni(backup).Ok? && ParseIni(current).Ok? && ParseIni(Merge(catalog, backup, current).value).Ok?
    ensures var b, c, m := ParseIni(backup).value, ParseIni(current).value, ParseIni(Merge(catalog, backup, current).value).value;
            && m.prefix == c.prefix && m.suffix == c.suffix && |m.entries| == |c.entries|
            && (forall i :: 0 <= i < |c.entries| ==> RestoredFrom(catalog, b.entries, c.entries[i], m.entries[i]))
            && (forall i :: 0 <= i < |b.entries| && Restorable(catalog, b.entries[i]) ==> HasKey(m.entries, b.entries[i].key))
            && (forall i :: 0 <= i < |c.entries| && c.entries[i].Keyed? && Secret(catalog, c.entries[i].key)
                  ==> m.entries[i].Keyed? && m.entries[i].value == c.entries[i].value)
  {
    hide ParseIni, UniqueKeys, KnownValid, Replacements, EntryMap, Merged;
    MergedReads(catalog, backup, current);
    RecheckPasses(catalog, backup, current);
    var b, c, m := ParseIni(backup).value.entries, ParseIni(current).value.entries, ParseIni(Merged(catalog, backup, current)).value.entries;
    EntryMapOf(m);
    SplicedKeys(c, m, Replacements(catalog, b));
    MergeKeeps(catalog, b, c, m);
  }

  lemma MergeKeeps(catalog: Catalog, b: seq<Entry>, c: seq<Entry>, m: seq<Entry>)
    requires |m| == |c| && RestorableKnown(catalog, b, c) && SecretsKept(catalog, c, EntryMap(m))
    requires forall i :: 0 <= i < |m| && m[i].Keyed? ==> m[i].key in EntryMap(m) && EntryMap(m)[m[i].key] == m[i]
    requires forall i :: 0 <= i < |c| ==> c[i].Keyed? == m[i].Keyed? && (c[i].Keyed? ==> c[i].key == m[i].key)
    ensures forall i :: 0 <= i < |b| && Restorable(catalog, b[i]) ==> HasKey(m, b[i].key)
    ensures forall i :: 0 <= i < |c| && c[i].Keyed? && Secret(catalog, c[i].key) ==> m[i].Keyed? && m[i].value == c[i].value
  {
    hide EntryMap;
    forall i | 0 <= i < |b| && Restorable(catalog, b[i])
      ensures HasKey(m, b[i].key)
    {
      assert HasKey(c, b[i].key);
      var j :| 0 <= j < |c| && c[j].Keyed? && c[j].key == b[i].key;
      assert m[j].key == b[i].key;
    }
    forall i | 0 <= i < |c| && c[i].Keyed? && Secret(catalog, c[i].key)
      ensures m[i].Keyed? && m[i].value == c[i].value
    {
      assert EntryMap(m)[m[i].key] == m[i];
    }
  }

  /** A key of the catalogue of any type but a secret, editable or not. */
  predicate KnownPlain(catalog: Catalog, e: Entry) {
    && e.Keyed? && e.key in catalog.definitions
    && catalog.definitions[e.key].kind in {Boolean, Enumeration, Integer, Number, ReadOnly, Text}
  }

  ghost predicate HasValue(entries: seq<Entry>, key: string, value: string) {
    exists j :: 0 <= j < |entries| && entries[j].Keyed? && entries[j].key == key && entries[j].value == value
  }

  /** The backup has a known, plain entry with the key of `e`. */
  ghost predicate TakesValue(catalog: Catalog, b: seq<Entry>, e: Entry) {
    exists i :: 0 <= i < |b| && KnownPlain(catalog, b[i]) && e.Keyed? && e.key == b[i].key
  }

  /** A key classified as a secret, or with a name that looks like one. */
  predicate SecretKey(catalog: Catalog, key: string) {
    catalog.sensitiveName(key) || (key in catalog.definitions && catalog.definitions[key].kind == Sensitive)
  }

  /** The same, entry by entry and in the catalogue's own terms: every entry of the backup whose key is
      known as anything but a secret has its value under its key in the merged file, every other entry of
      the merged file is the current one, and so is the value of every secret. */
  lemma MergeRestores(catalog: Catalog, backup: string, current: string)
    requires Merge(catalog, backup, current).Ok?
    ensures ParseIni(backup).Ok? && ParseIni(current).Ok? && ParseIni(Merge(catalog, backup, current).value).Ok?
    ensures var b, c, m := ParseIni(backup).value.entries, ParseIni(current).value.entries,
                           ParseIni(Merge(catalog, backup, current).value).value.entries;
            && |m| == |c| && UniqueKeys(m)
            && (forall i :: 0 <= i < |b| && KnownPlain(catalog, b[i]) ==> HasValue(m, b[i].key, b[i].value))
            && (forall j :: 0 <= j < |c| && !TakesValue(catalog, b, c[j]) ==> m[j] == c[j])
            && (forall j :: 0 <= j < |c| && c[j].Keyed? && SecretKey(catalog, c[j].key) ==> m[j].Keyed? && m[j].value == c[j].value)
  {
    hide ParseIni, UniqueKeys, KnownValid, Replacements, EntryMap, Merged, Render, SecretsKept;
    MergeIsSplice(catalog, backup, current);
    RecheckPasses(catalog, backup, current);
    var b, c, m := ParseIni(backup).value.entries, ParseIni(current).value.entries,
                   ParseIni(Merge(catalog, backup, current).value).value.entries;
    RestoredEntries(catalog, b, c, m);
  }

  lemma RestoredEntries(catalog: Catalog, b: seq<Entry>, c: seq<Entry>, m: seq<Entry>)
    requires |m| == |c| && RestorableKnown(catalog, b, c)
    requires forall i :: 0 <= i < |c| ==> RestoredFrom(catalog, b, c[i], m[i])
    ensures forall i :: 0 <= i < |b| && KnownPlain(catalog, b[i]) ==> HasValue(m, b[i].key, b[i].value)
    ensures forall j :: 0 <= j < |c| && !TakesValue(catalog, b, c[j]) ==> m[j] == c[j]
  {
    forall i | 0 <= i < |b| && KnownPlain(catalog, b[i])
      ensures HasValue(m, b[i].key, b[i].value)
    {
      assert Restorable(catalog, b[i]) && HasKey(c, b[i].key);
      var j :| 0 <= j < |c| && c[j].Keyed? && c[j].key == b[i].key;
      assert RestoredFrom(catalog, b, c[j], m[j]);
      assert m[j].key == b[i].key && m[j].value == b[i].value;
    }
    forall j | 0 <= j < |c| && !TakesValue(catalog, b, c[j])
      ensures m[j] == c[j]
    {
      assert RestoredFrom(catalog, b, c[j], m[j]);
    }
  }

  /** Two entries of one file with the same key. */
  ghost predicate RepeatsKey(entries: seq<Entry>) {
    exists i, j :: 0 <= i < j < |entries| && entries[i].Keyed? && entries[j].Keyed? && entries[i].key == entries[j].key
  }

  /** A value of a known key that the catalogue's type does not read. */
  ghost predicate HasBadValue(catalog: Catalog, entries: seq<Entry>) {
    exists i :: 0 <= i < |entries| && entries[i].Keyed? && entries[i].key in catalog.definitions
      && catalog.definitions[entries[i].key].kind != ReadOnly && catalog.definitions[entries[i].key].kind != Sensitive
      && ParseSettingValue(catalog.definitions[entries[i].key], entries[i].value).Err?
  }

  /** A known entry of the backup, not a secret, that the current file does not have. */
  ghost predicate LacksKey(catalog: Catalog, b: seq<Entry>, c: seq<Entry>) {
    exists i :: 0 <= i < |b| && KnownPlain(catalog, b[i])
      && forall j :: 0 <= j < |c| && c[j].Keyed? ==> c[j].key != b[i].key
  }

  /** A known entry of the backup, not classified as a secret, under a name that looks like one, whose
      value the current file does not have. */
  ghost predicate ChangesSecret(catalog: Catalog, b: seq<Entry>, c: seq<Entry>) {
    exists i, j :: 0 <= i < |b| && 0 <= j < |c| && KnownPlain(catalog, b[i]) && c[j].Keyed? && b[i].key == c[j].key
      && catalog.sensitiveName(b[i].key) && b[i].value != c[j].value
  }

  /** On one-line files the merged text is always accepted. */
  lemma MergeOneLine(catalog: Catalog, backup: string, current: string)
    requires Mergeable(catalog, backup, current)
    requires NoBreak(Join(Raws(ParseIni(current).value.entries))) && NoBreak(Join(Raws(ParseIni(backup).value.entries)))
    ensures ParseIni(Merged(catalog, backup, current)).Ok?
  {
    hide ParseIni, UniqueKeys, KnownValid, RestorableKnown, Replacements, ParseEntry, Join, IsSplit, NoBreak;
    var b, c := ParseIni(backup).value.entries, ParseIni(current).value;
    var r := Replacements(catalog, b);
    RestoredAreSpliceable(catalog, backup);
    RenderedPieces(current, r);
    RestoredHaveNoBreak(catalog, backup);
    var doc, raws, inner := ParseParts(current);
    RenderedHaveNoBreak(c.entries, r, raws);
    OneLineAccepted(current, RenderEntries(c.entries, r));
  }

  lemma {:induction false} JoinNoBreak(pieces: seq<string>)
    ensures NoBreak(Join(pieces)) <==> forall i :: 0 <= i < |pieces| ==> NoBreak(pieces[i])
  {
    if |pieces| > 1 {
      JoinNoBreak(pieces[1..]);
      assert forall i :: 1 <= i < |pieces| ==> pieces[i] == pieces[1..][i - 1];
      NoBreakAppend(pieces[0], "," + Join(pieces[1..]));
      NoBreakAppend(",", Join(pieces[1..]));
      assert pieces[0] + "," + Join(pieces[1..]) == pieces[0] + ("," + Join(pieces[1..]));
    }
  }

  lemma NoBreakAppend(a: string, b: string)
    ensures NoBreak(a + b) <==> NoBreak(a) && NoBreak(b)
  {
    assert forall i :: 0 <= i < |a| ==> a[i] == (a + b)[i];
    assert forall i :: 0 <= i < |b| ==> b[i] == (a + b)[|a| + i];
  }

  lemma RestoredHaveNoBreak(catalog: Catalog, backup: string)
    requires ParseIni(backup).Ok? && UniqueKeys(ParseIni(backup).value.entries)
    requires NoBreak(Join(Raws(ParseIni(backup).value.entries)))
    ensures forall key :: key in Replacements(catalog, ParseIni(backup).value.entries) ==>
              NoBreak(Replacements(catalog, ParseIni(backup).value.entries)[key])
  {
    hide ParseIni, ParseEntry, Piece, UniqueKeys, Replacements, NoBreak, Join;
    var doc, pieces, inner := ParseParts(backup);
    ReplacementsOf(catalog, doc.entries);
    JoinNoBreak(pieces);
    var r := Replacements(catalog, doc.entries);
    forall key | key in r
      ensures NoBreak(r[key])
    {
      var i :| 0 <= i < |doc.entries| && Restorable(catalog, doc.entries[i]) && doc.entries[i].key == key;
      assert Piece(pieces[i]) && doc.entries[i] == ParseEntry(pieces[i]);
      ValueNoBreak(pieces[i]);
    }
  }

  lemma ValueNoBreak(raw: string)
    requires Piece(raw) && ParseEntry(raw).Keyed? && NoBreak(raw)
    ensures NoBreak(ParseEntry(raw).value)
  {
    hide ParseEntry, Piece, NoBreak, IsName, Trimmed, AllSpace;
    var name, lead, post := EntryParts(raw);
    var v := ParseEntry(raw).value;
    NoBreakAppend(name + "=" + lead + v, post);
    NoBreakAppend(name + "=" + lead, v);
  }

  lemma RenderedHaveNoBreak(entries: seq<Entry>, replacements: map<string, string>, raws: seq<string>)
    requires forall i :: 0 <= i < |entries| ==> Cuttable(entries[i])
    requires |raws| == |entries| && forall i :: 0 <= i < |entries| ==> raws[i] == entries[i].raw
    requires NoBreak(Join(raws)) && forall key :: key in replacements ==> NoBreak(replacements[key])
    ensures NoBreak(Join(RenderEntries(entries, replacements)))
  {
    hide NoBreak, Join;
    JoinNoBreak(raws);
    var pieces := RenderEntries(entries, replacements);
    forall i | 0 <= i < |pieces|
      ensures NoBreak(pieces[i])
    {
      var e := entries[i];
      assert NoBreak(raws[i]);
      if e.Keyed? && e.key in replacements {
        CutsNoBreak(e.raw, e.valueStart, e.valueEnd);
        NoBreakAppend(e.raw[..e.valueStart], replacements[e.key]);
        NoBreakAppend(e.raw[..e.valueStart] + replacements[e.key], e.raw[e.valueEnd..]);
      }
    }
    JoinNoBreak(pieces);
  }

  lemma CutsNoBreak(raw: string, start: nat, end: nat)
    requires NoBreak(raw) && start <= |raw| && end <= |raw|
    ensures NoBreak(raw[..start]) && NoBreak(raw[end..])
  {
  }

  // ---- The loops ----

  /** `_unique_ini_entries`: fails exactly when two entries share a key. */
  method UniqueIniEntries(entries: seq<Entry>) returns (r: Option<map<string, Entry>>)
    ensures r.Some? <==> UniqueKeys(entries)
    ensures r.Some? ==> r.value == EntryMap(entries)
  {
    hide UniqueKeys, HasKey, EntryMap;
    var result: map<string, Entry> := map[];
    NoEntries();
    for i := 0 to |entries|
      invariant UniqueKeys(entries[..i]) && result == EntryMap(entries[..i])
    {
      var entry := entries[i];
      MapGrows(entries, i);
      if entry.Keyed? {
        if entry.key in result {
          DuplicateKey(entries, i);
          return None;
        }
        result := result[entry.key := entry];
      }
      GrowUnique(entries, i);
    }
    assert entries[..|entries|] == entries;
    return Some(result);
  }

  lemma NoEntries()
    ensures UniqueKeys([]) && EntryMap([]) == map[]
  {
  }

  /** The dictionary after one more entry; its keys before are those of the entries before. */
  lemma MapGrows(entries: seq<Entry>, i: nat)
    requires i < |entries| && UniqueKeys(entries[..i])
    ensures var rest, entry := EntryMap(entries[..i]), entries[i];
            && EntryMap(entries[..i + 1]) == (if entry.Keyed? then rest[entry.key := entry] else rest)
            && (entry.Keyed? ==> (entry.key in rest <==> HasKey(entries[..i], entry.key)))
  {
    hide UniqueKeys, HasKey;
    assert entries[..i + 1][..i] == entries[..i];
    EntryMapOf(entries[..i]);
  }

  lemma DuplicateKey(entries: seq<Entry>, i: nat)
    requires i < |entries| && entries[i].Keyed? && HasKey(entries[..i], entries[i].key)
    ensures !UniqueKeys(entries)
  {
    var j :| 0 <= j < i && entries[..i][j].Keyed? && entries[..i][j].key == entries[i].key;
    assert entries[j].key == entries[i].key;
  }

  lemma GrowUnique(entries: seq<Entry>, i: nat)
    requires i < |entries| && UniqueKeys(entries[..i])
    requires entries[i].Keyed? ==> !HasKey(entries[..i], entries[i].key)
    ensures UniqueKeys(entries[..i + 1])
  {
    var t := entries[..i + 1];
    forall j, k | 0 <= j < k < |t| && t[j].Keyed? && t[k].Keyed?
      ensures t[j].key != t[k].key
    {
      assert entries[..i][j] == t[j];
      if k < i {
        assert entries[..i][k] == t[k];
      }
    }
  }

  /** `_validate_known_values`. */
  method ValidateKnownValues(catalog: Catalog, entries: seq<Entry>) returns (ok: bool)
    ensures ok <==> KnownValid(catalog, entries)
  {
    for i := 0 to |entries|
      invariant KnownValid(catalog, entries[..i])
    {
      if !ValidValue(catalog, entries[i]) {
        return false;
      }
      assert entries[..i + 1] == entries[..i] + [entries[i]];
    }
    assert entries[..|entries|] == entries;
    return true;
  }

  method MergePalworldSettings(catalog: Catalog, backupContent: string, currentContent: string)
    returns (r: Result<string, MergeError>)
    ensures r == Merge(catalog, backupContent, currentContent)
  {
    hide ParseIni, UniqueKeys, KnownValid, RenderEntries;
    var backup := Parse(backupContent);
    var current := Parse(currentContent);
    if backup.Err? || current.Err? {
      return Err(MergeUnsafe);
    }
    var backupEntries := UniqueIniEntries(backup.value.entries);
    var currentEntries := UniqueIniEntries(current.value.entries);
    if backupEntries.None? || currentEntries.None? {
      return Err(MergeUnsafe);
    }
    var currentValid := ValidateKnownValues(catalog, current.value.entries);
    var backupValid := ValidateKnownValues(catalog, backup.value.entries);
    if !currentValid || !backupValid {
      return Err(MergeUnsafe);
    }
    EntryMapOf(current.value.entries);
    var replacements: map<string, string> := map[];
    var b := backup.value.entries;
    for i := 0 to |b|
      invariant replacements == Replacements(catalog, b[..i])
      invariant forall j :: 0 <= j < i && Restorable(catalog, b[j]) ==> b[j].key in currentEntries.value
    {
      assert b[..i + 1][..i] == b[..i];
      if Restorable(catalog, b[i]) {
        if b[i].key !in currentEntries.value {
          assert !HasKey(current.value.entries, b[i].key);
          return Err(MergeUnsafe);
        }
        replacements := replacements[b[i].key := b[i].value];
      }
    }
    assert b[..|b|] == b;
    ParsedIsCuttable(currentContent);
    var merged := Render(current.value, replacements);
    assert Mergeable(catalog, backupContent, currentContent);
    var reread := Parse(merged);
    if reread.Err? {
      return Err(MergeUnsafe);
    }
    var mergedEntries := UniqueIniEntries(reread.value.entries);
    if mergedEntries.None? {
      return Err(MergeUnsafe);
    }
    var mergedValid := ValidateKnownValues(catalog, reread.value.entries);
    if !mergedValid {
      return Err(MergeUnsafe);
    }
    var kept := CheckSecrets(catalog, current.value.entries, mergedEntries.value);
    return if kept then Ok(merged) else Err(SecretChanged);
  }

  method CheckSecrets(catalog: Catalog, current: seq<Entry>, merged: map<string, Entry>) returns (kept: bool)
    ensures kept <==> SecretsKept(catalog, current, merged)
  {
    for i := 0 to |current|
      invariant forall j :: 0 <= j < i && current[j].Keyed? && Secret(catalog, current[j].key) ==>
        current[j].key in merged && merged[current[j].key].Keyed? && merged[current[j].key].value == current[j].value
    {
      var entry := current[i];
      if entry.Keyed? && Secret(catalog, entry.key) {
        if entry.key !in merged || !merged[entry.key].Keyed? || merged[entry.key].value != entry.value {
          return false;
        }
      }
    }
    return true;
  }

  lemma ParsedIsCuttable(content: string)
    requires ParseIni(content).Ok?
    ensures Cuttables(ParseIni(content).value)
  {
    RenderedPieces(content, map[]);
  }

  // ---- When a merge is refused ----

  /** The current file with the values of the backup, whether or not a merge would be accepted. */
  ghost function Combined(catalog: Catalog, backup: string, current: string): string
    requires ParseIni(backup).Ok? && ParseIni(current).Ok?
  {
    ParsedIsCuttable(current);
    Render(ParseIni(current).value, Replacements(catalog, ParseIni(backup).value.entries))
  }

  /** One of the files is unreadable, repeats a key or has a bad value; the current file lacks a key; or
      the combined text would not be readable. */
  ghost predicate Unsafe(catalog: Catalog, backup: string, current: string) {
    || ParseIni(backup).Err? || ParseIni(current).Err?
    || (var b, c := ParseIni(backup).value.entries, ParseIni(current).value.entries;
        || RepeatsKey(b) || RepeatsKey(c) || HasBadValue(catalog, b) || HasBadValue(catalog, c)
        || LacksKey(catalog, b, c) || ParseIni(Combined(catalog, backup, current)).Err?)
  }

  /** When a merge is refused, and as what: as unsafe exactly when it is; otherwise it fails only if it
      would change a secret, and then as that. */
  lemma MergeRefusedIff(catalog: Catalog, backup: string, current: string)
    ensures Merge(catalog, backup, current) == Err(MergeUnsafe) <==> Unsafe(catalog, backup, current)
    ensures Merge(catalog, backup, current) == Err(SecretChanged) <==>
              && !Unsafe(catalog, backup, current)
              && ChangesSecret(catalog, ParseIni(backup).value.entries, ParseIni(current).value.entries)
    ensures !Unsafe(catalog, backup, current) && Merge(catalog, backup, current).Ok? ==>
              Merge(catalog, backup, current).value == Combined(catalog, backup, current)
  {
    hide ParseIni, UniqueKeys, KnownValid, RestorableKnown, RepeatsKey, HasBadValue, LacksKey, ChangesSecret, SecretsAgree,
         SecretsKept, Cuttables, EntryMap, Render;
    MergeSucceedsIff(catalog, backup, current);
    if ParseIni(backup).Ok? && ParseIni(current).Ok? {
      var b, c := ParseIni(backup).value.entries, ParseIni(current).value.entries;
      ParsedIsCuttable(current);
      RepeatsIff(b);
      RepeatsIff(c);
      BadValueIff(catalog, b);
      BadValueIff(catalog, c);
      LacksIff(catalog, b, c);
      ChangesIff(catalog, b, c);
      if Mergeable(catalog, backup, current) && ParseIni(Merged(catalog, backup, current)).Ok? {
        RecheckPasses(catalog, backup, current);
      }
    }
  }

  lemma RepeatsIff(entries: seq<Entry>)
    ensures RepeatsKey(entries) <==> !UniqueKeys(entries)
  {
  }

  lemma BadValueIff(catalog: Catalog, entries: seq<Entry>)
    ensures HasBadValue(catalog, entries) <==> !KnownValid(catalog, entries)
  {
    hide ParseSettingValue;
  }

  lemma LacksIff(catalog: Catalog, b: seq<Entry>, c: seq<Entry>)
    ensures LacksKey(catalog, b, c) <==> !RestorableKnown(catalog, b, c)
  {
    forall i | 0 <= i < |b| && b[i].Keyed?
      ensures HasKey(c, b[i].key) <==> !forall j :: 0 <= j < |c| && c[j].Keyed? ==> c[j].key != b[i].key
    {
    }
  }

  lemma ChangesIff(catalog: Catalog, b: seq<Entry>, c: seq<Entry>)
    ensures ChangesSecret(catalog, b, c) <==> !SecretsAgree(catalog, b, c)
  {
  }
}
