/** What the text of a setting means, type by type, and that the parser, the page and a save agree with
    it. */
module SettingMeaning {
  import opened Common
  import opened IniDocument
  import opened SettingValues
  import opened SettingsMerge
  import opened SettingsSave
  import JsonText
  import JsonGrammar

  /** `t` is `s` without the whitespace around it. */
  ghost predicate Inside(s: string, t: string) {
    Trimmed(t) && exists pre, post :: AllSpace(pre) && AllSpace(post) && s == pre + t + post
  }

  lemma StripIff(s: string, t: string)
    ensures Strip(s) == t <==> Inside(s, t)
  {
    hide Strip, IsSpace, AllSpace, Trimmed;
    var pre, post := StripParts(s);
    if Inside(s, t) {
      var before, after :| AllSpace(before) && AllSpace(after) && s == before + t + after;
      StripOf(before, t, after);
    }
  }

  /** The same letters, in any case. */
  predicate SameLetters(a: string, b: string) {
    |a| == |b| && forall i :: 0 <= i < |a| ==>
      || a[i] == b[i]
      || ('A' <= a[i] <= 'Z' && b[i] as int == a[i] as int + 32)
      || ('A' <= b[i] <= 'Z' && a[i] as int == b[i] as int + 32)
  }

  /** The text between the quotes of a quoted value, or the value as it stands. */
  ghost predicate ReadsText(t: string, v: string) {
    if t != "" && t[0] == '"' then JsonGrammar.JsonString(t, v) else v == t
  }

  /** `v` is the value that the text `raw` has for a setting of this kind. */
  ghost predicate Means(d: Definition, raw: string, v: string) {
    var t := Strip(raw);
    match d.kind
    case Boolean => (v == "True" || v == "False") && SameLetters(t, v)
    case Integer => v == t && d.admits(t)
    case Number => v == t && d.admits(t)
    case Enumeration => ReadsText(t, v) && v in d.options
    case Text => ReadsText(t, v) && |v| <= 2048 && forall i :: 0 <= i < |v| ==> v[i] as int != 0 && v[i] as int != 10 && v[i] as int != 13
    case ReadOnly => false
    case Sensitive => false
  }

  lemma LowerIff(t: string, word: string)
    requires forall i :: 0 <= i < |word| ==> 'a' <= word[i] <= 'z'
    ensures Lower(t) == word <==> SameLetters(t, word)
  {
    if |t| == |word| {
      forall i | 0 <= i < |t|
        ensures LowerChar(t[i]) == word[i] <==>
                  || t[i] == word[i]
                  || ('A' <= t[i] <= 'Z' && word[i] as int == t[i] as int + 32)
      {
      }
      assert Lower(t) == word <==> forall i :: 0 <= i < |t| ==> Lower(t)[i] == word[i];
    }
  }

  lemma SwitchIff(t: string)
    ensures Lower(t) == "true" <==> SameLetters(t, "True")
    ensures Lower(t) == "false" <==> SameLetters(t, "False")
  {
    hide Lower;
    LowerIff(t, "true");
    LowerIff(t, "false");
    CapitalIff(t, "True", "true");
    CapitalIff(t, "False", "false");
  }

  lemma CapitalIff(t: string, capital: string, word: string)
    requires SameLetters(capital, word) && forall i :: 0 <= i < |word| ==> 'a' <= word[i] <= 'z'
    ensures SameLetters(t, capital) <==> SameLetters(t, word)
  {
  }

  lemma TextIff(raw: string, v: string)
    ensures ParseString(raw) == Ok(v) <==> ReadsText(Strip(raw), v)
  {
    hide Strip, JsonText.Loads, JsonGrammar.JsonString;
    var t := Strip(raw);
    if t != "" && t[0] == '"' {
      JsonGrammar.LoadsIff(t, v);
    }
  }

  /** The parser answers a value exactly when it is what the text means. */
  lemma ParseIff(d: Definition, raw: string, v: string)
    ensures ParseSettingValue(d, raw) == Ok(v) <==> Means(d, raw, v)
  {
    hide Strip, Lower, ParseString, ReadsText, SameLetters;
    SwitchIff(Strip(raw));
    TextIff(raw, v);
    NoControls(v);
  }

  lemma NoControls(v: string)
    ensures '\0' !in v && '\r' !in v && '\n' !in v <==>
              forall i :: 0 <= i < |v| ==> v[i] as int != 0 && v[i] as int != 10 && v[i] as int != 13
  {
    forall i | 0 <= i < |v|
      ensures v[i] == '\0' <==> v[i] as int == 0
      ensures v[i] == '\n' <==> v[i] as int == 10
      ensures v[i] == '\r' <==> v[i] as int == 13
    {
    }
  }

  // ---- The page ----

  /** The entry `i` is the only one with its key. */
  predicate OnlyEntry(entries: seq<Entry>, key: string, i: int) {
    && 0 <= i < |entries| && entries[i].Keyed? && entries[i].key == key
    && forall j :: 0 <= j < |entries| && entries[j].Keyed? && entries[j].key == key ==> j == i
  }

  lemma {:induction false} NoneWith(entries: seq<Entry>, key: string)
    ensures EntriesWith(entries, key) == [] <==> forall j :: 0 <= j < |entries| ==> !(entries[j].Keyed? && entries[j].key == key)
  {
    if entries != [] {
      var n := |entries| - 1;
      NoneWith(entries[..n], key);
      assert forall j :: 0 <= j < n ==> entries[..n][j] == entries[j];
    }
  }

  ghost predicate OnlyIs(entries: seq<Entry>, key: string, e: Entry) {
    exists i :: OnlyEntry(entries, key, i) && entries[i] == e
  }

  lemma OnlyIsLast(entries: seq<Entry>, key: string, e: Entry)
    requires entries != []
    requires var last := entries[|entries| - 1]; last.Keyed? && last.key == key
    ensures OnlyIs(entries, key, e) <==>
              e == entries[|entries| - 1] && forall j :: 0 <= j < |entries| - 1 ==> !(entries[j].Keyed? && entries[j].key == key)
  {
    var n := |entries| - 1;
    if e == entries[n] && forall j :: 0 <= j < n ==> !(entries[j].Keyed? && entries[j].key == key) {
      assert OnlyEntry(entries, key, n);
    }
  }

  lemma OnlyIsEarlier(entries: seq<Entry>, key: string, e: Entry)
    requires entries != []
    requires var last := entries[|entries| - 1]; !(last.Keyed? && last.key == key)
    ensures OnlyIs(entries, key, e) <==> OnlyIs(entries[..|entries| - 1], key, e)
  {
    var init := entries[..|entries| - 1];
    assert forall j :: 0 <= j < |init| ==> init[j] == entries[j];
    if i :| OnlyEntry(init, key, i) && init[i] == e {
      assert OnlyEntry(entries, key, i);
    }
    if i :| OnlyEntry(entries, key, i) && entries[i] == e {
      assert OnlyEntry(init, key, i);
    }
  }

  lemma {:induction false} OneWith(entries: seq<Entry>, key: string, e: Entry)
    ensures EntriesWith(entries, key) == [e] <==> OnlyIs(entries, key, e)
  {
    hide OnlyIs;
    if entries == [] {
      NoneIs(key, e);
    } else {
      var n := |entries| - 1;
      var init := entries[..n];
      if entries[n].Keyed? && entries[n].key == key {
        NoneWith(init, key);
        OnlyIsLast(entries, key, e);
        assert forall j :: 0 <= j < n ==> init[j] == entries[j];
        OneIs(EntriesWith(init, key), entries[n], e);
      } else {
        OneWith(init, key, e);
        OnlyIsEarlier(entries, key, e);
      }
    }
  }

  lemma NoneIs(key: string, e: Entry)
    ensures !OnlyIs([], key, e)
  {
  }

  lemma OneIs(rest: seq<Entry>, last: Entry, e: Entry)
    ensures rest + [last] == [e] <==> rest == [] && last == e
  {
    if rest + [last] == [e] {
      assert |rest + [last]| == 1;
      assert [e][0] == (rest + [last])[0];
    }
  }

  lemma {:induction false} WithAreKeyed(entries: seq<Entry>, key: string)
    ensures forall i :: 0 <= i < |EntriesWith(entries, key)| ==> EntriesWith(entries, key)[i].Keyed?
  {
    if entries != [] {
      WithAreKeyed(entries[..|entries| - 1], key);
    }
  }

  /** The key stands in the file once, and the text there means `v`. */
  ghost predicate Holds(catalog: Catalog, entries: seq<Entry>, key: string, v: string) {
    key in catalog.definitions && exists i :: OnlyEntry(entries, key, i) && Means(catalog.definitions[key], entries[i].value, v)
  }

  /** A page shows a value for a key exactly when the file holds it. */
  lemma PageShows(catalog: Catalog, entries: seq<Entry>, key: string, v: string)
    ensures FieldOf(catalog, entries, key).value == Some(v) <==> Holds(catalog, entries, key, v)
  {
    hide EntriesWith, ParseSettingValue, Means, Editable;
    if key in catalog.definitions {
      var d := catalog.definitions[key];
      var with := EntriesWith(entries, key);
      WithAreKeyed(entries, key);
      if |with| == 1 {
        OneWith(entries, key, with[0]);
        ParseIff(d, with[0].value, v);
        OnlyEditable(d, with[0].value, v);
      }
      if i :| OnlyEntry(entries, key, i) && Means(d, entries[i].value, v) {
        OneWith(entries, key, entries[i]);
        assert with == [entries[i]];
      }
    }
  }

  lemma OnlyEditable(d: Definition, raw: string, v: string)
    ensures Means(d, raw, v) ==> Editable(d.kind)
  {
    hide ReadsText, Strip, SameLetters;
  }

  /** What a save does to a field of the form: the new file holds what was submitted, once, and the field
      is reported as changed exactly when the old file did not. */
  lemma SavedFieldMeans(catalog: Catalog, order: seq<string>, version: string -> string,
                        content: string, found: string, updates: map<string, string>, expected: string, key: string)
    requires WellFormedCatalog(catalog) && key in updates
    requires Save(catalog, order, version, content, found, updates, expected).Ok?
    ensures ParseIni(content).Ok? && key in catalog.definitions
    ensures var saved := Save(catalog, order, version, content, found, updates, expected).value;
            exists v ::
              && Means(catalog.definitions[key], updates[key], v)
              && (key in saved.changed <==> !Holds(catalog, ParseIni(content).value.entries, key, v))
              && (saved.changed != [] ==>
                    ParseIni(saved.content).Ok? && Holds(catalog, ParseIni(saved.content).value.entries, key, v))
  {
    hide ParseIni, EditableKeys, FieldOf, ParseSettingValue, Means, Holds, WellFormed, Utf8Length, Render, PlanOf, Cuttables;
    var saved, c := Save(catalog, order, version, content, found, updates, expected).value, ParseIni(content).value.entries;
    var keys := EditableKeys(catalog, c, order);
    EditableAreShown(catalog, c, order);
    assert key in keys;
    var d := catalog.definitions[key];
    var v := ParseSettingValue(d, updates[key]).value;
    PageShows(catalog, c, key, v);
    if saved.changed == [] {
      SaveWithoutChange(catalog, order, version, content, found, updates, expected);
    } else {
      SaveReadsBack(catalog, order, version, content, found, updates, expected);
      PageShows(catalog, ParseIni(saved.content).value.entries, key, v);
    }
    ParseIff(d, updates[key], v);
  }

  // ---- When a save is refused ----

  /** The form has exactly the fields of the page that show a value, and each submitted text means one. */
  ghost predicate Fits(catalog: Catalog, order: seq<string>, entries: seq<Entry>, updates: map<string, string>) {
    && (forall key :: key in updates <==> key in order && Shows(catalog, entries, key))
    && forall key :: key in updates ==> Meaningful(catalog, updates, key)
  }

  ghost predicate Shows(catalog: Catalog, entries: seq<Entry>, key: string) {
    exists v :: Holds(catalog, entries, key, v)
  }

  ghost predicate Meaningful(catalog: Catalog, updates: map<string, string>, key: string) {
    key in updates && key in catalog.definitions && exists v :: Means(catalog.definitions[key], updates[key], v)
  }

  /** The submitted text means something that the file does not hold. */
  ghost predicate Alters(catalog: Catalog, entries: seq<Entry>, updates: map<string, string>, key: string) {
    && key in updates && key in catalog.definitions
    && exists v :: Means(catalog.definitions[key], updates[key], v) && !Holds(catalog, entries, key, v)
  }

  /** The file with every field that is altered written anew. */
  ghost function NewText(catalog: Catalog, content: string, updates: map<string, string>): string
    requires ParseIni(content).Ok?
  {
    var doc := ParseIni(content).value;
    ParsedIsCuttable(content);
    Render(doc, map key | key in updates && Alters(catalog, doc.entries, updates, key) && Serialize(catalog.definitions[key], updates[key]).Ok?
                  :: Serialize(catalog.definitions[key], updates[key]).value)
  }

  /** A save that gets as far as the second look at the file. */
  ghost predicate Writes(catalog: Catalog, order: seq<string>, content: string, updates: map<string, string>) {
    && ParseIni(content).Ok?
    && var doc := ParseIni(content).value;
       && Fits(catalog, order, doc.entries, updates) && (exists key :: Alters(catalog, doc.entries, updates, key))
       && ParseIni(NewText(catalog, content, updates)).Ok?
  }

  /** A form that cannot be saved whatever else happens. */
  ghost predicate Unfit(catalog: Catalog, order: seq<string>, content: string, updates: map<string, string>) {
    || ParseIni(content).Err?
    || (var doc := ParseIni(content).value;
        || !Fits(catalog, order, doc.entries, updates)
        || ((exists key :: Alters(catalog, doc.entries, updates, key))
            && ParseIni(NewText(catalog, content, updates)).Err?))
  }

  lemma ShowsIff(catalog: Catalog, entries: seq<Entry>, key: string)
    ensures FieldOf(catalog, entries, key).value.Some? <==> Shows(catalog, entries, key)
  {
    hide FieldOf, Holds;
    if FieldOf(catalog, entries, key).value.Some? {
      PageShows(catalog, entries, key, FieldOf(catalog, entries, key).value.value);
    }
    if v :| Holds(catalog, entries, key, v) {
      PageShows(catalog, entries, key, v);
    }
  }

  lemma AltersIff(catalog: Catalog, entries: seq<Entry>, updates: map<string, string>, key: string)
    ensures Submitted(catalog, updates, key) <==> Meaningful(catalog, updates, key)
    ensures Changes(catalog, entries, updates, key) <==> Alters(catalog, entries, updates, key)
  {
    hide FieldOf, Holds, Means, ParseSettingValue;
    if key in updates && key in catalog.definitions {
      var d := catalog.definitions[key];
      forall v
        ensures ParseSettingValue(d, updates[key]) == Ok(v) <==> Means(d, updates[key], v)
        ensures FieldOf(catalog, entries, key).value == Some(v) <==> Holds(catalog, entries, key, v)
      {
        ParseIff(d, updates[key], v);
        PageShows(catalog, entries, key, v);
      }
      if ParseSettingValue(d, updates[key]).Ok? {
        assert Means(d, updates[key], ParseSettingValue(d, updates[key]).value);
      }
    }
  }

  lemma FitsIff(catalog: Catalog, order: seq<string>, entries: seq<Entry>, updates: map<string, string>)
    ensures var keys := EditableKeys(catalog, entries, order);
            && (Fits(catalog, order, entries, updates) <==> SameKeys(updates, keys) && PlanOf(catalog, entries, updates, keys).Some?)
            && (Fits(catalog, order, entries, updates) ==>
                  var plan := PlanOf(catalog, entries, updates, keys).value;
                  && (plan.replacements == map[] <==> !exists key :: Alters(catalog, entries, updates, key))
                  && (plan.changed == [] <==> plan.replacements == map[])
                  && plan.replacements == map key | key in updates && Alters(catalog, entries, updates, key)
                                                    && Serialize(catalog.definitions[key], updates[key]).Ok?
                                            :: Serialize(catalog.definitions[key], updates[key]).value)
  {
    hide FieldOf, EditableKeys, PlanOf, Shows, Meaningful, Alters, Submitted, Changes, Serialize;
    var keys := EditableKeys(catalog, entries, order);
    forall key
      ensures key in keys <==> key in order && Shows(catalog, entries, key)
      ensures Submitted(catalog, updates, key) <==> Meaningful(catalog, updates, key)
      ensures Changes(catalog, entries, updates, key) <==> Alters(catalog, entries, updates, key)
    {
      ShowsIff(catalog, entries, key);
      AltersIff(catalog, entries, updates, key);
    }
    if Fits(catalog, order, entries, updates) {
      var plan := PlanOf(catalog, entries, updates, keys).value;
      assert plan.replacements == map[] <==> forall key :: key !in plan.replacements;
      if plan.changed != [] {
        assert plan.changed[0] in plan.changed;
      }
      forall key | Alters(catalog, entries, updates, key)
        ensures key in updates
      {
        AltersSubmitted(catalog, entries, updates, key);
      }
    }
  }

  lemma AltersSubmitted(catalog: Catalog, entries: seq<Entry>, updates: map<string, string>, key: string)
    ensures Alters(catalog, entries, updates, key) ==> key in updates && key in catalog.definitions
  {
  }

  lemma PreparedIs(catalog: Catalog, order: seq<string>, version: string -> string,
                   content: string, updates: map<string, string>, expected: string)
    requires Utf8Length(content) <= 1048576 && version(content) == expected
    ensures var r := Prepared(catalog, order, version, content, updates, expected);
            if Unfit(catalog, order, content, updates) then r == Err(Validation)
            else
              && r.Ok? && (r.value.changed != [] <==> Writes(catalog, order, content, updates))
              && (r.value.changed != [] ==> r.value.content == NewText(catalog, content, updates))
  {
    hide ParseIni, Utf8Length, Render, EditableKeys, PlanOf, Fits, SameKeys, Alters, Cuttables, Serialize;
    if ParseIni(content).Ok? {
      ParsedIsCuttable(content);
      FitsIff(catalog, order, ParseIni(content).value.entries, updates);
    }
  }

  /** When a save is refused, and as what, on any file: as invalid for the form or the text it makes; as a
      conflict for another version, now or at the second look; as an invalid file for its size, before or
      after. Otherwise the new text is written if anything is altered. */
  lemma SaveRefusedIff(catalog: Catalog, order: seq<string>, version: string -> string,
                       content: string, found: string, updates: map<string, string>, expected: string)
    ensures Writes(catalog, order, content, updates) ==> ParseIni(content).Ok?
    ensures var r := Save(catalog, order, version, content, found, updates, expected);
            var writes := Writes(catalog, order, content, updates);
            var asOpened := Utf8Length(content) <= 1048576 && version(content) == expected;
            && (r == Err(Validation) <==> asOpened && Unfit(catalog, order, content, updates))
            && (r == Err(Conflict) <==>
                  || (Utf8Length(content) <= 1048576 && version(content) != expected)
                  || (asOpened && writes && Utf8Length(found) <= 1048576 && version(found) != expected))
            && (r == Err(InvalidFile) <==>
                  || Utf8Length(content) > 1048576
                  || (asOpened && writes && (Utf8Length(found) > 1048576
                                           || (version(found) == expected
                                               && Utf8Length(NewText(catalog, content, updates)) > 1048576))))
            && (r.Ok? ==> r.value.content == if writes then NewText(catalog, content, updates) else found)
  {
    hide ParseIni, Utf8Length, Prepared, NewText, Fits, Alters;
    if Utf8Length(content) <= 1048576 && version(content) == expected {
      PreparedIs(catalog, order, version, content, updates, expected);
    } else {
      NotPrepared(catalog, order, version, content, updates, expected);
    }
  }

  lemma NotPrepared(catalog: Catalog, order: seq<string>, version: string -> string,
                    content: string, updates: map<string, string>, expected: string)
    ensures Utf8Length(content) > 1048576 ==> Prepared(catalog, order, version, content, updates, expected) == Err(InvalidFile)
    ensures Utf8Length(content) <= 1048576 && version(content) != expected ==>
              Prepared(catalog, order, version, content, updates, expected) == Err(Conflict)
  {
    hide ParseIni, Utf8Length, Render, EditableKeys, PlanOf, Cuttables;
  }
}
