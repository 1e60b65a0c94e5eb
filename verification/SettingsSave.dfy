/** The settings editor: what a page shows of the file, and what saving the page does to it. */
module SettingsSave {
  import opened Common
  import opened IniScanner
  import opened IniDocument
  import opened IniSplice
  import opened IniSingleLine
  import opened JsonText
  import opened SettingValues
  import opened SettingsMerge

  const MAX_INI_BYTES: nat := 1024 * 1024

  datatype SaveError = Conflict | InvalidFile | Validation

  /** A known key of the file: its value as the page shows it, or `None` if it cannot be edited. */
  datatype FieldView = FieldView(value: Option<string>)

  /** What a save has decided: the new texts, and the keys it changes in the order of the page. */
  datatype Plan = Plan(replacements: map<string, string>, changed: seq<string>)

  datatype Saved = Saved(changed: seq<string>, content: string)

  // ---- What the page shows ----

  function EntriesWith(entries: seq<Entry>, key: string): seq<Entry> {
    if entries == [] then []
    else
      var last := entries[|entries| - 1];
      var rest := EntriesWith(entries[..|entries| - 1], key);
      if last.Keyed? && last.key == key then rest + [last] else rest
  }

  /** `_field_view`: a field can be edited if its key stands in the file once, its kind is neither
      secret nor structured, and its value parses. */
  function ViewOf(d: Definition, entries: seq<Entry>): FieldView {
    if |entries| != 1 || !Editable(d.kind) || !entries[0].Keyed? then FieldView(None)
    else
      match ParseSettingValue(d, entries[0].value)
      case Ok(value) => FieldView(Some(value))
      case Err(_) => FieldView(None)
  }

  function FieldOf(catalog: Catalog, entries: seq<Entry>, key: string): FieldView {
    if key in catalog.definitions then ViewOf(catalog.definitions[key], EntriesWith(entries, key)) else FieldView(None)
  }

  /** Entries without a key that hold more than whitespace. */
  function Malformed(entries: seq<Entry>): nat {
    if entries == [] then 0
    else
      var last := entries[|entries| - 1];
      Malformed(entries[..|entries| - 1]) + if last.Opaque? && Strip(last.raw) != "" then 1 else 0
  }

  /** The keys of the form, in the order of the page. */
  function EditableKeys(catalog: Catalog, entries: seq<Entry>, order: seq<string>): (r: seq<string>)
    ensures forall key :: key in r <==> key in order && FieldOf(catalog, entries, key).value.Some?
  {
    if order == [] then []
    else
      var last := order[|order| - 1];
      var rest := EditableKeys(catalog, entries, order[..|order| - 1]);
      if FieldOf(catalog, entries, last).value.Some? then rest + [last] else rest
  }

  /** Which entries count as malformed, and that each counts once. */
  lemma {:induction false} MalformedIs(entries: seq<Entry>)
    ensures Malformed(entries) == |set i | 0 <= i < |entries| && IsMalformed(entries[i])|
  {
    hide Strip, IsMalformed;
    var positions := set i | 0 <= i < |entries| && IsMalformed(entries[i]);
    if entries == [] {
      assert positions == {};
    } else {
      var n := |entries| - 1;
      var rest := entries[..n];
      MalformedIs(rest);
      var init := set i | 0 <= i < n && IsMalformed(rest[i]);
      LastMalformed(entries);
      forall i | 0 <= i < n
        ensures i in init <==> i in positions
      {
        assert rest[i] == entries[i];
      }
      assert positions == if IsMalformed(entries[n]) then init + {n} else init;
    }
  }

  predicate IsMalformed(e: Entry) {
    e.Opaque? && !AllSpace(e.raw)
  }

  lemma LastMalformed(entries: seq<Entry>)
    requires entries != []
    ensures var n := |entries| - 1;
            Malformed(entries) == Malformed(entries[..n]) + if IsMalformed(entries[n]) then 1 else 0
  {
    hide Strip, AllSpace;
    BlankIff(entries[|entries| - 1].raw);
  }

  lemma BlankIff(s: string)
    ensures Strip(s) == "" <==> AllSpace(s)
  {
    hide Strip, IsSpace;
    var pre, post := StripParts(s);
    if AllSpace(s) {
      assert s == s + "" + "";
      StripOf(s, "", "");
    }
    SpacesJoin(pre, post);
    assert Strip(s) == "" ==> s == pre + post;
  }

  lemma SpacesJoin(pre: string, post: string)
    requires AllSpace(pre) && AllSpace(post)
    ensures AllSpace(pre + post)
  {
    hide IsSpace;
  }

  lemma EditableNone(catalog: Catalog, entries: seq<Entry>)
    ensures EditableKeys(catalog, entries, []) == []
  {
  }

  lemma EditableNext(catalog: Catalog, entries: seq<Entry>, order: seq<string>, i: nat)
    requires i < |order|
    ensures var rest := EditableKeys(catalog, entries, order[..i]);
            EditableKeys(catalog, entries, order[..i + 1]) ==
              if FieldOf(catalog, entries, order[i]).value.Some? then rest + [order[i]] else rest
  {
    hide FieldOf;
    assert order[..i + 1][..i] == order[..i];
  }

  /** Only keys of the catalogue that the file has are shown with a value. */
  lemma ShownField(catalog: Catalog, entries: seq<Entry>, key: string)
    ensures if key in catalog.definitions && EntriesWith(entries, key) != []
            then FieldOf(catalog, entries, key) == ViewOf(catalog.definitions[key], EntriesWith(entries, key))
            else FieldOf(catalog, entries, key).value.None?
  {
  }

  // ---- What a save does ----

  /** The submitted value differs from the one in the file once both are normalised. */
  predicate Changes(catalog: Catalog, entries: seq<Entry>, updates: map<string, string>, key: string) {
    key in updates && key in catalog.definitions &&
    ParseSettingValue(catalog.definitions[key], updates[key]).Ok? &&
    FieldOf(catalog, entries, key).value != Some(ParseSettingValue(catalog.definitions[key], updates[key]).value)
  }

  predicate Submitted(catalog: Catalog, updates: map<string, string>, key: string) {
    key in updates && key in catalog.definitions && ParseSettingValue(catalog.definitions[key], updates[key]).Ok?
  }

  function PlanOf(catalog: Catalog, entries: seq<Entry>, updates: map<string, string>, keys: seq<string>): (r: Option<Plan>)
    ensures r.Some? <==> forall key :: key in keys ==> Submitted(catalog, updates, key)
    ensures r.Some? ==>
              forall key :: key in r.value.replacements <==> key in keys && Changes(catalog, entries, updates, key)
    ensures r.Some? ==>
              forall key :: key in r.value.replacements ==>
                Serialize(catalog.definitions[key], updates[key]) == Ok(r.value.replacements[key])
    ensures r.Some? ==> forall key :: key in r.value.changed <==> key in r.value.replacements
  {
    if keys == [] then Some(Plan(map[], []))
    else
      var key := keys[|keys| - 1];
      var rest := PlanOf(catalog, entries, updates, keys[..|keys| - 1]);
      if rest.None? || !Submitted(catalog, updates, key) then None
      else if Changes(catalog, entries, updates, key) then
        Some(Plan(rest.value.replacements[key := Serialize(catalog.definitions[key], updates[key]).value],
                  rest.value.changed + [key]))
      else rest
  }

  ghost predicate SameKeys(updates: map<string, string>, keys: seq<string>) {
    forall key :: key in updates <==> key in keys
  }

  /** The text to write and the keys it changes, or why the form is refused. */
  ghost function Prepared(catalog: Catalog, order: seq<string>, version: string -> string,
                          content: string, updates: map<string, string>, expected: string)
    : Result<Saved, SaveError>
  {
    if Utf8Length(content) > MAX_INI_BYTES then Err(InvalidFile)
    else if version(content) != expected then Err(Conflict)
    else if ParseIni(content).Err? then Err(Validation)
    else
      var doc := ParseIni(content).value;
      var keys := EditableKeys(catalog, doc.entries, order);
      if !SameKeys(updates, keys) then Err(Validation)
      else
        var plan := PlanOf(catalog, doc.entries, updates, keys);
        if plan.None? then Err(Validation)
        else if plan.value.replacements == map[] then Ok(Saved([], content))
        else if !Cuttables(doc) || ParseIni(Render(doc, plan.value.replacements)).Err? then Err(Validation)
        else Ok(Saved(plan.value.changed, Render(doc, plan.value.replacements)))
  }

  /** What `Storage.Write` answers when the file holds `found`. */
  ghost function WriteError(version: string -> string, found: string, expected: string, next: string): Option<SaveError> {
    if Utf8Length(found) > MAX_INI_BYTES then Some(InvalidFile)
    else if version(found) != expected then Some(Conflict)
    else if Utf8Length(next) > MAX_INI_BYTES then Some(InvalidFile)
    else None
  }

  /** The content after the save, or why it is refused. `found` is what another program may have
      left in the file between the read and the write. */
  ghost function Save(catalog: Catalog, order: seq<string>, version: string -> string,
                      content: string, found: string, updates: map<string, string>, expected: string)
    : Result<Saved, SaveError>
  {
    var prepared := Prepared(catalog, order, version, content, updates, expected);
    if prepared.Err? then prepared
    else if prepared.value.changed == [] then Ok(Saved([], found))
    else
      var failure := WriteError(version, found, expected, prepared.value.content);
      if failure.Some? then Err(failure.value) else prepared
  }

  // ---- The file behind the page ----

  class Storage {
    var content: string
    var backups: seq<string>
    const version: string -> string

    constructor (content: string, version: string -> string)
      ensures this.content == content && backups == [] && this.version == version
    {
      this.content, this.backups, this.version := content, [], version;
    }

    method Read() returns (r: Result<(string, string), SaveError>)
      ensures r == if Utf8Length(content) > MAX_INI_BYTES then Err(InvalidFile) else Ok((content, version(content)))
    {
      var size := Utf8Size(content);
      return if size > MAX_INI_BYTES then Err(InvalidFile) else Ok((content, version(content)));
    }

    /** Replaces the file, keeping the old one as a backup, if it is still the expected one. */
    method Write(expected: string, next: string) returns (r: Option<SaveError>)
      modifies this
      ensures r == WriteError(version, old(content), expected, next)
      ensures r.Some? ==> content == old(content) && backups == old(backups)
      ensures r.None? ==> content == next && backups == old(backups) + [old(content)]
    {
      var size := Utf8Size(content);
      if size > MAX_INI_BYTES {
        return Some(InvalidFile);
      }
      if version(content) != expected {
        return Some(Conflict);
      }
      size := Utf8Size(next);
      if size > MAX_INI_BYTES {
        return Some(InvalidFile);
      }
      backups := backups + [content];
      content := next;
      return None;
    }

    /** Another program writes the file. */
    method Overwrite(next: string)
      modifies this
      ensures content == next && backups == old(backups)
    {
      content := next;
    }
  }

  // ---- The page ----

  class SettingsService {
    const catalog: Catalog
    const order: seq<string>
    const storage: Storage

    constructor (catalog: Catalog, order: seq<string>, storage: Storage)
      ensures this.catalog == catalog && this.order == order && this.storage == storage
    {
      this.catalog, this.order, this.storage := catalog, order, storage;
    }

    /** `_inspect`: the known keys of the file with what the page shows of them, those that can be
        edited in the order of the page, the unknown keys, and how many entries are malformed. */
    method Inspect(doc: ParsedIni)
      returns (fields: map<string, FieldView>, editable: seq<string>, unknown: set<string>, malformed: nat)
      ensures editable == EditableKeys(catalog, doc.entries, order)
      ensures forall key :: key in fields <==>
                key in order && key in catalog.definitions && EntriesWith(doc.entries, key) != []
      ensures forall key :: key in fields ==> fields[key] == FieldOf(catalog, doc.entries, key)
      ensures forall key :: key in unknown <==> key !in catalog.definitions && EntriesWith(doc.entries, key) != []
      ensures malformed == Malformed(doc.entries)
    {
      var byKey;
      byKey, malformed := Group(doc.entries);
      fields, editable := Views(doc.entries, byKey);
      unknown := set key | key in byKey && key !in catalog.definitions;
    }

    /** The loop over the entries. */
    method Group(entries: seq<Entry>) returns (byKey: map<string, seq<Entry>>, malformed: nat)
      ensures forall key :: EntriesWith(entries, key) == if key in byKey then byKey[key] else []
      ensures forall key :: key in byKey ==> byKey[key] != []
      ensures malformed == Malformed(entries)
    {
      hide Strip, EntriesWith, Malformed;
      byKey, malformed := map[], 0;
      NoneSeen();
      for i := 0 to |entries|
        invariant forall key :: EntriesWith(entries[..i], key) == if key in byKey then byKey[key] else []
        invariant forall key :: key in byKey ==> byKey[key] != []
        invariant malformed == Malformed(entries[..i])
      {
        var entry := entries[i];
        OneMoreSeen(entries, i);
        if entry.Keyed? {
          byKey := byKey[entry.key := (if entry.key in byKey then byKey[entry.key] else []) + [entry]];
        } else if Strip(entry.raw) != "" {
          malformed := malformed + 1;
        }
      }
      assert entries[..|entries|] == entries;
    }

    /** The loop over the catalogue. */
    method Views(ghost entries: seq<Entry>, byKey: map<string, seq<Entry>>)
      returns (fields: map<string, FieldView>, editable: seq<string>)
      requires forall key :: EntriesWith(entries, key) == if key in byKey then byKey[key] else []
      requires forall key :: key in byKey ==> byKey[key] != []
      ensures editable == EditableKeys(catalog, entries, order)
      ensures forall key :: key in fields <==> key in order && key in catalog.definitions && EntriesWith(entries, key) != []
      ensures forall key :: key in fields ==> fields[key] == FieldOf(catalog, entries, key)
    {
      hide EntriesWith, FieldOf, ViewOf, EditableKeys;
      fields, editable := map[], [];
      EditableNone(catalog, entries);
      for i := 0 to |order|
        invariant editable == EditableKeys(catalog, entries, order[..i])
        invariant forall key :: key in fields <==> key in order[..i] && key in catalog.definitions && key in byKey
        invariant forall key :: key in fields ==> fields[key] == FieldOf(catalog, entries, key)
      {
        var key := order[i];
        assert order[..i + 1] == order[..i] + [key];
        EditableNext(catalog, entries, order, i);
        ShownField(catalog, entries, key);
        if key in catalog.definitions && key in byKey {
          var field := ViewOf(catalog.definitions[key], byKey[key]);
          fields := fields[key := field];
          if field.value.Some? {
            editable := editable + [key];
          }
        }
      }
      assert order[..|order|] == order;
    }

    /** `meanwhile` is what another program writes between the read and the write, if any. */
    method SavePage(updates: map<string, string>, expected: string, meanwhile: Option<string>)
      returns (r: Result<Saved, SaveError>)
      modifies storage
      ensures var found := if meanwhile.Some? then meanwhile.value else old(storage.content);
              && r == Save(catalog, order, storage.version, old(storage.content), found, updates, expected)
              && storage.content == (if r.Ok? then r.value.content else found)
              && storage.backups == old(storage.backups) + if r.Ok? && r.value.changed != [] then [found] else []
    {
      hide Prepared, Utf8Length;
      var stored := storage.Read();
      if meanwhile.Some? {
        storage.Overwrite(meanwhile.value);
      }
      ghost var content := old(storage.content);
      TooLarge(catalog, order, storage.version, content, updates, expected);
      if stored.Err? {
        return Err(stored.error);
      }
      var prepared := Prepare(stored.value.0, stored.value.1, updates, expected);
      if prepared.Err? {
        return prepared;
      }
      if prepared.value.changed == [] {
        return Ok(Saved([], storage.content));
      }
      var failure := storage.Write(expected, prepared.value.content);
      return if failure.Some? then Err(failure.value) else prepared;
    }

    /** The part of a save between the read and the write. */
    method Prepare(content: string, digest: string, updates: map<string, string>, expected: string)
      returns (r: Result<Saved, SaveError>)
      requires Utf8Length(content) <= MAX_INI_BYTES && digest == storage.version(content)
      ensures r == Prepared(catalog, order, storage.version, content, updates, expected)
    {
      hide ParseIni, Render, FieldOf, EditableKeys, Utf8Length, PlanOf;
      if digest != expected {
        return Err(Conflict);
      }
      var parsed := Parse(content);
      if parsed.Err? {
        return Err(Validation);
      }
      var fields, editable, _, _ := Inspect(parsed.value);
      EditableAreShown(catalog, parsed.value.entries, order);
      if updates.Keys != set key | key in editable {
        assert !SameKeys(updates, editable);
        return Err(Validation);
      }
      assert SameKeys(updates, editable);
      var plan := Decide(parsed.value.entries, fields, editable, updates);
      if plan.None? {
        return Err(Validation);
      }
      if plan.value.replacements == map[] {
        return Ok(Saved([], content));
      }
      ParsedIsCuttable(content);
      var rendered := Render(parsed.value, plan.value.replacements);
      var reread := Parse(rendered);
      return if reread.Err? then Err(Validation) else Ok(Saved(plan.value.changed, rendered));
    }

    /** The loop over the form: parse what was submitted, and serialise what differs. */
    method Decide(ghost entries: seq<Entry>, fields: map<string, FieldView>, keys: seq<string>, updates: map<string, string>)
      returns (plan: Option<Plan>)
      requires forall key :: key in keys ==>
                 key in updates && key in catalog.definitions && key in fields && fields[key] == FieldOf(catalog, entries, key)
      ensures plan == PlanOf(catalog, entries, updates, keys)
    {
      hide FieldOf, ParseSettingValue;
      var replacements: map<string, string> := map[];
      var changed: seq<string> := [];
      for i := 0 to |keys|
        invariant PlanOf(catalog, entries, updates, keys[..i]) == Some(Plan(replacements, changed))
      {
        var key := keys[i];
        assert keys[..i + 1][..i] == keys[..i] && key in keys;
        var submitted := ParseSettingValue(catalog.definitions[key], updates[key]);
        if submitted.Err? {
          assert !Submitted(catalog, updates, key);
          return None;
        }
        if fields[key].value != Some(submitted.value) {
          replacements := replacements[key := Serialize(catalog.definitions[key], updates[key]).value];
          changed := changed + [key];
        }
      }
      assert keys[..|keys|] == keys;
      return Some(Plan(replacements, changed));
    }
  }

  lemma NoneSeen()
    ensures Malformed([]) == 0 && forall key :: EntriesWith([], key) == []
  {
  }

  lemma OneMoreSeen(entries: seq<Entry>, i: nat)
    requires i < |entries|
    ensures forall key :: EntriesWith(entries[..i + 1], key) ==
              if entries[i].Keyed? && entries[i].key == key then EntriesWith(entries[..i], key) + [entries[i]]
              else EntriesWith(entries[..i], key)
    ensures Malformed(entries[..i + 1]) ==
            Malformed(entries[..i]) + if entries[i].Opaque? && Strip(entries[i].raw) != "" then 1 else 0
  {
    hide Strip;
    assert entries[..i + 1][..i] == entries[..i];
  }

  lemma EditableAreShown(catalog: Catalog, entries: seq<Entry>, order: seq<string>)
    ensures forall key :: key in EditableKeys(catalog, entries, order) ==>
              key in order && key in catalog.definitions && EntriesWith(entries, key) != []
  {
    hide EntriesWith, EditableKeys, ParseSettingValue;
  }

  lemma TooLarge(catalog: Catalog, order: seq<string>, version: string -> string,
                 content: string, updates: map<string, string>, expected: string)
    ensures Utf8Length(content) > MAX_INI_BYTES ==>
              Prepared(catalog, order, version, content, updates, expected) == Err(InvalidFile)
  {
  }

  // ---- What a save leaves behind ----

  lemma {:induction false} SplicedEntriesWith(c: seq<Entry>, m: seq<Entry>, replacements: map<string, string>, key: string)
    requires AllSpliced(c, m, replacements)
    ensures AllSpliced(EntriesWith(c, key), EntriesWith(m, key), replacements)
    ensures forall i :: 0 <= i < |EntriesWith(c, key)| ==> EntriesWith(c, key)[i].Keyed? && EntriesWith(c, key)[i].key == key
  {
    if c != [] {
      var n := |c| - 1;
      SplicedEntriesWith(c[..n], m[..n], replacements, key);
      assert Spliced(c[n], m[n], replacements);
    }
  }

  lemma PlanIsSpliceable(catalog: Catalog, entries: seq<Entry>, updates: map<string, string>, keys: seq<string>)
    requires WellFormedCatalog(catalog) && PlanOf(catalog, entries, updates, keys).Some?
    ensures AllSpliceable(PlanOf(catalog, entries, updates, keys).value.replacements)
  {
    hide Spliceable, Serialize, ParseSettingValue, WellFormed, FieldOf;
    var replacements := PlanOf(catalog, entries, updates, keys).value.replacements;
    forall key | key in replacements
      ensures Spliceable(replacements[key])
    {
      assert Submitted(catalog, updates, key);
      SerializeReadsBack(catalog.definitions[key], updates[key]);
    }
  }

  /** The field of an edited key shows what was submitted; every other field shows what it did. */
  lemma FieldAfter(catalog: Catalog, c: seq<Entry>, m: seq<Entry>, updates: map<string, string>, keys: seq<string>, key: string)
    requires WellFormedCatalog(catalog) && PlanOf(catalog, c, updates, keys).Some?
    requires forall k :: k in keys ==> FieldOf(catalog, c, k).value.Some?
    requires AllSpliced(c, m, PlanOf(catalog, c, updates, keys).value.replacements)
    ensures FieldOf(catalog, m, key) ==
            if key in keys then FieldView(Some(ParseSettingValue(catalog.definitions[key], updates[key]).value)) else FieldOf(catalog, c, key)
  {
    hide Serialize, ParseSettingValue, WellFormed, EntriesWith, PlanOf, Spliceable;
    var r := PlanOf(catalog, c, updates, keys).value.replacements;
    SplicedEntriesWith(c, m, r, key);
    var before, after := EntriesWith(c, key), EntriesWith(m, key);
    if key in keys {
      assert Submitted(catalog, updates, key);
    }
    if key in r {
      SerializeReadsBack(catalog.definitions[key], updates[key]);
      assert Spliced(before[0], after[0], r);
    } else {
      assert forall i :: 0 <= i < |before| ==> Spliced(before[i], after[i], r);
      assert before == after;
    }
  }

  lemma {:induction false} SameEditableKeys(catalog: Catalog, c: seq<Entry>, m: seq<Entry>, order: seq<string>)
    requires forall key :: FieldOf(catalog, m, key).value.Some? <==> FieldOf(catalog, c, key).value.Some?
    ensures EditableKeys(catalog, m, order) == EditableKeys(catalog, c, order)
  {
    hide FieldOf;
    if order != [] {
      SameEditableKeys(catalog, c, m, order[..|order| - 1]);
    }
  }

  /** Reading `m` shows every submitted value in its field, the same fields in the same order, and
      every entry whose key is not in `changed` to the byte; `changed` are the fields that differ. */
  ghost predicate ReadsBack(catalog: Catalog, order: seq<string>, c: ParsedIni, m: ParsedIni, updates: map<string, string>, changed: seq<string>) {
    var keys := EditableKeys(catalog, c.entries, order);
    && EditableKeys(catalog, m.entries, order) == keys
    && (forall key :: key in keys ==>
          Submitted(catalog, updates, key) &&
          FieldOf(catalog, m.entries, key) == FieldView(Some(ParseSettingValue(catalog.definitions[key], updates[key]).value)))
    && (forall key :: key !in keys ==> FieldOf(catalog, m.entries, key) == FieldOf(catalog, c.entries, key))
    && (forall key :: key in changed <==> key in keys && FieldOf(catalog, m.entries, key) != FieldOf(catalog, c.entries, key))
    && m.prefix == c.prefix && m.suffix == c.suffix && |m.entries| == |c.entries|
    && (forall i :: 0 <= i < |c.entries| && (!c.entries[i].Keyed? || c.entries[i].key !in changed) ==>
          m.entries[i] == c.entries[i])
    && (forall i :: 0 <= i < |c.entries| && c.entries[i].Keyed? ==> m.entries[i].Keyed? && m.entries[i].key == c.entries[i].key)
  }

  lemma PlanReadsBack(catalog: Catalog, order: seq<string>, c: ParsedIni, m: ParsedIni, updates: map<string, string>)
    requires WellFormedCatalog(catalog)
    requires PlanOf(catalog, c.entries, updates, EditableKeys(catalog, c.entries, order)).Some?
    requires m.prefix == c.prefix && m.suffix == c.suffix
    requires AllSpliced(c.entries, m.entries, PlanOf(catalog, c.entries, updates, EditableKeys(catalog, c.entries, order)).value.replacements)
    ensures ReadsBack(catalog, order, c, m, updates, PlanOf(catalog, c.entries, updates, EditableKeys(catalog, c.entries, order)).value.changed)
  {
    hide ParseSettingValue, FieldOf, EditableKeys, PlanOf, WellFormed;
    var keys := EditableKeys(catalog, c.entries, order);
    var plan := PlanOf(catalog, c.entries, updates, keys).value;
    forall key
      ensures FieldOf(catalog, m.entries, key) ==
              if key in keys then FieldView(Some(ParseSettingValue(catalog.definitions[key], updates[key]).value))
              else FieldOf(catalog, c.entries, key)
    {
      FieldAfter(catalog, c.entries, m.entries, updates, keys, key);
    }
    SameEditableKeys(catalog, c.entries, m.entries, order);
    SplicedKeys(c.entries, m.entries, plan.replacements);
    assert forall i :: 0 <= i < |c.entries| ==> Spliced(c.entries[i], m.entries[i], plan.replacements);
  }

  /** The main result of a save that changed something: the file is still the one the page was
      opened on, and the new file reads back as what was submitted. */
  lemma SaveReadsBack(catalog: Catalog, order: seq<string>, version: string -> string,
                      content: string, found: string, updates: map<string, string>, expected: string)
    requires WellFormedCatalog(catalog)
    requires Save(catalog, order, version, content, found, updates, expected).Ok?
    requires Save(catalog, order, version, content, found, updates, expected).value.changed != []
    ensures var saved := Save(catalog, order, version, content, found, updates, expected).value;
            && version(content) == expected == version(found)
            && ParseIni(content).Ok? && ParseIni(saved.content).Ok?
            && ReadsBack(catalog, order, ParseIni(content).value, ParseIni(saved.content).value, updates, saved.changed)
  {
    hide ParseIni, Utf8Length, Render, EditableKeys, PlanOf, Spliceable, WellFormed, ReadsBack, AllSpliced;
    var c := ParseIni(content).value;
    var keys := EditableKeys(catalog, c.entries, order);
    var plan := PlanOf(catalog, c.entries, updates, keys).value;
    PlanIsSpliceable(catalog, c.entries, updates, keys);
    SpliceReparse(content, plan.replacements);
    PlanReadsBack(catalog, order, c, ParseIni(Render(c, plan.replacements)).value, updates);
  }

  /** The keys whose fields differ between two files, in the order of `keys`. */
  function Differing(catalog: Catalog, c: seq<Entry>, m: seq<Entry>, keys: seq<string>): seq<string> {
    if keys == [] then []
    else
      var last := keys[|keys| - 1];
      Differing(catalog, c, m, keys[..|keys| - 1]) + if FieldOf(catalog, m, last) != FieldOf(catalog, c, last) then [last] else []
  }

  lemma {:induction false} PlanInOrder(catalog: Catalog, c: seq<Entry>, m: seq<Entry>, updates: map<string, string>, keys: seq<string>)
    requires PlanOf(catalog, c, updates, keys).Some?
    requires forall key :: key in keys ==>
               Submitted(catalog, updates, key) &&
               FieldOf(catalog, m, key) == FieldView(Some(ParseSettingValue(catalog.definitions[key], updates[key]).value))
    ensures PlanOf(catalog, c, updates, keys).value.changed == Differing(catalog, c, m, keys)
  {
    hide FieldOf, ParseSettingValue, Serialize;
    if keys != [] {
      PlanInOrder(catalog, c, m, updates, keys[..|keys| - 1]);
    }
  }

  /** A save reports the fields that differ in the order of the page, each as often as the page shows
      it; and a page that is not the file's newest is refused as a conflict, whatever it asks for. */
  lemma ChangedInOrder(catalog: Catalog, order: seq<string>, version: string -> string,
                       content: string, found: string, updates: map<string, string>, expected: string)
    requires WellFormedCatalog(catalog)
    ensures Utf8Length(content) <= 1048576 && version(content) != expected ==>
              Save(catalog, order, version, content, found, updates, expected) == Err(Conflict)
    ensures Save(catalog, order, version, content, found, updates, expected).Ok? &&
            Save(catalog, order, version, content, found, updates, expected).value.changed != [] ==>
              var saved := Save(catalog, order, version, content, found, updates, expected).value;
              && ParseIni(content).Ok? && ParseIni(saved.content).Ok?
              && var c, m := ParseIni(content).value.entries, ParseIni(saved.content).value.entries;
                 saved.changed == Differing(catalog, c, m, EditableKeys(catalog, c, order))
  {
    hide ParseIni, Utf8Length, Render, EditableKeys, PlanOf, FieldOf, ParseSettingValue, WellFormed, Differing, Cuttables;
    var s := Save(catalog, order, version, content, found, updates, expected);
    if s.Ok? && s.value.changed != [] {
      SaveReadsBack(catalog, order, version, content, found, updates, expected);
      var c, m := ParseIni(content).value.entries, ParseIni(s.value.content).value.entries;
      PlanInOrder(catalog, c, m, updates, EditableKeys(catalog, c, order));
    }
  }

  /** A save that reports no change leaves the file alone, and the page already showed every value. */
  lemma SaveWithoutChange(catalog: Catalog, order: seq<string>, version: string -> string,
                          content: string, found: string, updates: map<string, string>, expected: string)
    requires Save(catalog, order, version, content, found, updates, expected).Ok?
    requires Save(catalog, order, version, content, found, updates, expected).value.changed == []
    ensures Save(catalog, order, version, content, found, updates, expected).value.content == found && ParseIni(content).Ok?
    ensures var c := ParseIni(content).value.entries;
            forall key :: key in EditableKeys(catalog, c, order) ==>
              Submitted(catalog, updates, key) &&
              FieldOf(catalog, c, key) == FieldView(Some(ParseSettingValue(catalog.definitions[key], updates[key]).value))
  {
    hide ParseIni, ParseSettingValue, Utf8Length, FieldOf, RenderEntries, EditableKeys, PlanOf;
    var c := ParseIni(content).value.entries;
    var keys := EditableKeys(catalog, c, order);
    var plan := PlanOf(catalog, c, updates, keys).value;
    assert plan.replacements == map[] <==> forall key :: key !in plan.replacements;
    forall key | key in keys
      ensures Submitted(catalog, updates, key) && !Changes(catalog, c, updates, key)
    {
      assert key !in plan.replacements;
    }
  }

  // ---- When a save is accepted ----

  lemma {:induction false} EscapeNoBreak(s: string)
    ensures NoBreak(Escape(s))
  {
    if s != "" {
      EscapeNoBreak(s[1..]);
      EscapeCharNoBreak(s[0]);
      NoBreakAppend(EscapeChar(s[0]), Escape(s[1..]));
    }
  }

  lemma EscapeCharNoBreak(c: char)
    ensures NoBreak(EscapeChar(c))
  {
  }

  lemma SerializeNoBreak(d: Definition, value: string)
    requires WellFormed(d) && Serialize(d, value).Ok?
    ensures NoBreak(Serialize(d, value).value)
  {
    hide Strip, Loads, Escape, NoBreak, ParseString;
    if d.kind.Text? {
      var v := ParseSettingValue(d, value).value;
      EscapeNoBreak(v);
      NoBreakAppend("\"" + Escape(v), "\"");
      NoBreakAppend("\"", Escape(v));
      QuoteNoBreak();
    } else {
      WordNoBreak("True");
      WordNoBreak("False");
      WordNoBreak(Serialize(d, value).value);
    }
  }

  lemma QuoteNoBreak()
    ensures NoBreak("\"")
  {
  }

  lemma WordNoBreak(t: string)
    requires IsWord(t)
    ensures NoBreak(t)
  {
  }

  /** On a one-line file a save is refused only for the reasons a caller can see beforehand: the
      file changed, the form has other fields, a value does not parse, or a size limit. */
  lemma SaveAcceptedIff(catalog: Catalog, order: seq<string>, version: string -> string,
                        content: string, found: string, updates: map<string, string>, expected: string)
    requires WellFormedCatalog(catalog) && ParseIni(content).Ok?
    requires NoBreak(Join(Raws(ParseIni(content).value.entries)))
    ensures Cuttables(ParseIni(content).value)
    ensures var doc := ParseIni(content).value;
            var keys := EditableKeys(catalog, doc.entries, order);
            var plan := PlanOf(catalog, doc.entries, updates, keys);
            Save(catalog, order, version, content, found, updates, expected).Ok? <==>
              && Utf8Length(content) <= MAX_INI_BYTES && version(content) == expected
              && SameKeys(updates, keys) && (forall key :: key in keys ==> Submitted(catalog, updates, key))
              && ((exists key :: key in keys && Changes(catalog, doc.entries, updates, key)) ==>
                    && version(found) == expected && Utf8Length(found) <= MAX_INI_BYTES
                    && Utf8Length(Render(doc, plan.value.replacements)) <= MAX_INI_BYTES)
  {
    hide ParseIni, ParseSettingValue, Utf8Length, FieldOf, RenderEntries, EditableKeys, PlanOf, Join, Raws, NoBreak, WellFormed;
    var doc := ParseIni(content).value;
    var keys := EditableKeys(catalog, doc.entries, order);
    ParsedIsCuttable(content);
    var plan := PlanOf(catalog, doc.entries, updates, keys);
    if plan.Some? {
      PlanReparses(catalog, content, updates, keys);
      assert plan.value.replacements == map[] <==> !exists key :: key in plan.value.replacements;
    }
  }

  lemma PlanReparses(catalog: Catalog, content: string, updates: map<string, string>, keys: seq<string>)
    requires WellFormedCatalog(catalog) && ParseIni(content).Ok? && Cuttables(ParseIni(content).value)
    requires NoBreak(Join(Raws(ParseIni(content).value.entries)))
    requires PlanOf(catalog, ParseIni(content).value.entries, updates, keys).Some?
    ensures ParseIni(Render(ParseIni(content).value, PlanOf(catalog, ParseIni(content).value.entries, updates, keys).value.replacements)).Ok?
  {
    hide ParseIni, ParseSettingValue, FieldOf, PlanOf, Join, NoBreak, WellFormed, Serialize, ParseEntry, Spliceable, Piece, IsSplit;
    var doc := ParseIni(content).value;
    var r := PlanOf(catalog, doc.entries, updates, keys).value.replacements;
    PlanIsSpliceable(catalog, doc.entries, updates, keys);
    RenderedPieces(content, r);
    forall key | key in r
      ensures NoBreak(r[key])
    {
      assert Submitted(catalog, updates, key);
      SerializeNoBreak(catalog.definitions[key], updates[key]);
    }
    var _, raws, _ := ParseParts(content);
    RenderedHaveNoBreak(doc.entries, r, raws);
    OneLineAccepted(content, RenderEntries(doc.entries, r));
  }
}
