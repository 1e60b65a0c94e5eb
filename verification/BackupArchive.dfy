/** Backup archives: the manifest built from a payload, the archive written around it, and the
    validator that accepts or refuses an archive. */
module BackupArchive {
  import opened Common

  const MANIFEST_FILENAME: string := "manifest.json"
  const MAX_MANIFEST_BYTES: nat := 4 * 1024 * 1024
  const MAX_ARCHIVE_MEMBERS: nat := 100_000
  const MAX_ARCHIVE_PATH_BYTES: nat := 4096
  const MAX_ARCHIVE_UNCOMPRESSED_BYTES: nat := 128 * 1024 * 1024 * 1024

  type Bytes = seq<bv8>

  datatype Json =
    | Null
    | Bool(b: bool)
    | Int(n: int)
    | Float(x: real)
    | Str(s: string)
    | Arr(items: seq<Json>)
    | Obj(fields: map<string, Json>)

  /** What the validator takes from Python's library: JSON, SHA-256 as a hexadecimal text, `isalpha`,
      and what `int(_, 16)` and `fromisoformat` accept. */
  datatype Library = Library(encode: Json -> Bytes, decode: Bytes -> Option<Json>, hash: Bytes -> string,
                             isAlpha: char -> bool, isHex: string -> bool, isTimestamp: string -> bool)

  datatype ManifestFile = ManifestFile(path: string, size: nat, sha256: string)

  /** A file of the staged payload, or something else found there. */
  datatype EntryKind = Regular | Directory | Link | Special

  datatype PayloadEntry = PayloadEntry(path: string, kind: EntryKind, data: Bytes)

  /** A member of a tar archive. */
  datatype Member = Member(name: string, regular: bool, data: Bytes)

  datatype Summary = Summary(members: nat, payload: nat)

  datatype Structure = Structure(manifest: Json, files: seq<ManifestFile>, summary: Summary)

  // ---- Paths ----

  function Parts(value: string): (r: seq<string>)
    ensures r != []
  {
    if value == "" then [""]
    else
      var rest := Parts(value[1..]);
      if value[0] == '/' then [""] + rest else [[value[0]] + rest[0]] + rest[1..]
  }

  /** A normalised relative path; the path `.` has no parts and passes. */
  predicate ValidPath(lib: Library, value: string) {
    && value != "" && Utf8Length(value) <= MAX_ARCHIVE_PATH_BYTES
    && (forall i :: 0 <= i < |value| ==> value[i] != '\\' && value[i] >= ' ' && value[i] != '\U{7F}')
    && !(|value| >= 2 && lib.isAlpha(value[0]) && value[1] == ':')
    && (value == "." || forall i :: 0 <= i < |Parts(value)| ==> Parts(value)[i] !in ["", ".", ".."])
  }

  /** A part that leaves the directory, stays in it, or is empty. */
  predicate HasBadPart(value: string) {
    exists i :: 0 <= i < |Parts(value)| && Parts(value)[i] in ["", ".", ".."]
  }

  /** The path `.` is accepted, and it is the only accepted path with such a part. */
  lemma OnlyDotPasses(lib: Library, value: string)
    ensures ValidPath(lib, ".")
    ensures ValidPath(lib, value) && HasBadPart(value) <==> value == "."
  {
    hide Utf8Length;
    Utf8Bound(".");
    assert Parts(".") == ["."] by {
      assert Parts("") == [""] && ['.'] + "" == ".";
    }
    assert Parts(".")[0] in ["", ".", ".."];
  }

  /** Python's order of texts. */
  predicate Less(a: string, b: string) {
    b != "" && (a == "" || a[0] < b[0] || (a[0] == b[0] && Less(a[1..], b[1..])))
  }

  predicate Sorted(files: seq<ManifestFile>) {
    forall i, j :: 0 <= i < j < |files| ==> files[i].path == files[j].path || Less(files[i].path, files[j].path)
  }

  predicate Distinct(files: seq<ManifestFile>) {
    forall i, j :: 0 <= i < j < |files| ==> files[i].path != files[j].path
  }

  // ---- The manifest ----

  predicate IsText(json: Option<Json>, text: string) {
    json == Some(Str(text))
  }

  function Field(json: Json, key: string): Option<Json> {
    if json.Obj? && key in json.fields then Some(json.fields[key]) else None
  }

  predicate HasKeys(json: Json, keys: set<string>) {
    json.Obj? && json.fields.Keys == keys
  }

  /** Everything `_parse_manifest` asks before it looks at the files. */
  predicate HeadOk(lib: Library, json: Json) {
    && json.Obj?
    && (var version := Field(json, "schema_version");
        version == Some(Int(1)) || version == Some(Float(1.0)) || version == Some(Bool(true)))
    && (var id := Field(json, "backup_id"); id.Some? && id.value.Str? && |id.value.s| == 32 && lib.isHex(id.value.s))
    && (var at := Field(json, "created_at_utc");
        at.Some? && at.value.Str? && at.value.s != "" && at.value.s[|at.value.s| - 1] == 'Z' && lib.isTimestamp(at.value.s))
    && (var metadata := Field(json, "metadata");
        && metadata.Some? && HasKeys(metadata.value, {"format", "kind", "trigger"})
        && IsText(Field(metadata.value, "format"), "tar.gz") && IsText(Field(metadata.value, "kind"), "local")
        && (IsText(Field(metadata.value, "trigger"), "manual") || IsText(Field(metadata.value, "trigger"), "automatic")))
    && (var files := Field(json, "files"); files.Some? && files.value.Arr?)
  }

  predicate FileOk(lib: Library, raw: Json) {
    && HasKeys(raw, {"path", "size_bytes", "sha256"})
    && raw.fields["path"].Str? && ValidPath(lib, raw.fields["path"].s) && raw.fields["path"].s != MANIFEST_FILENAME
    && raw.fields["size_bytes"].Int? && raw.fields["size_bytes"].n >= 0
    && raw.fields["sha256"].Str? && |raw.fields["sha256"].s| == 64 && lib.isHex(raw.fields["sha256"].s)
  }

  function FileOf(lib: Library, raw: Json): ManifestFile
    requires FileOk(lib, raw)
  {
    ManifestFile(raw.fields["path"].s, raw.fields["size_bytes"].n, raw.fields["sha256"].s)
  }

  function FilesOf(lib: Library, items: seq<Json>): (r: seq<ManifestFile>)
    requires forall i :: 0 <= i < |items| ==> FileOk(lib, items[i])
    ensures |r| == |items| && forall i :: 0 <= i < |r| ==> r[i] == FileOf(lib, items[i])
  {
    seq(|items|, i requires 0 <= i < |items| => FileOf(lib, items[i]))
  }

  function ParseManifest(lib: Library, json: Json): Option<seq<ManifestFile>> {
    if !HeadOk(lib, json) then None
    else
      var items := json.fields["files"].items;
      if exists i :: 0 <= i < |items| && !FileOk(lib, items[i]) then None
      else
        var files := FilesOf(lib, items);
        if Sorted(files) && Distinct(files) then Some(files) else None
  }

  method ParseManifestValue(lib: Library, json: Json) returns (r: Option<seq<ManifestFile>>)
    ensures r == ParseManifest(lib, json)
  {
    hide FileOk, Sorted, Distinct;
    if !HeadOk(lib, json) {
      return None;
    }
    var items := json.fields["files"].items;
    var parsed: seq<ManifestFile> := [];
    for i := 0 to |items|
      invariant |parsed| == i
      invariant forall j :: 0 <= j < i ==> FileOk(lib, items[j]) && parsed[j] == FileOf(lib, items[j])
    {
      if !FileOk(lib, items[i]) {
        return None;
      }
      parsed := parsed + [FileOf(lib, items[i])];
    }
    assert parsed == FilesOf(lib, items);
    return if Sorted(parsed) && Distinct(parsed) then Some(parsed) else None;
  }

  // ---- The validator ----

  function PayloadSize(members: seq<Member>): nat {
    if members == [] then 0
    else
      var last := members[|members| - 1];
      PayloadSize(members[..|members| - 1]) + if last.name == MANIFEST_FILENAME then 0 else |last.data|
  }

  function Total(files: seq<ManifestFile>): nat {
    if files == [] then 0 else Total(files[..|files| - 1]) + files[|files| - 1].size
  }

  predicate DistinctNames(members: seq<Member>) {
    forall i, j :: 0 <= i < j < |members| ==> members[i].name != members[j].name
  }

  /** What the first loop asks of the members. */
  predicate MembersOk(lib: Library, members: seq<Member>) {
    && |members| <= MAX_ARCHIVE_MEMBERS
    && (forall i :: 0 <= i < |members| ==> ValidPath(lib, members[i].name) && members[i].regular)
    && (members != [] ==> members[0].name == MANIFEST_FILENAME && |members[0].data| <= MAX_MANIFEST_BYTES)
    && DistinctNames(members) && PayloadSize(members) <= MAX_ARCHIVE_UNCOMPRESSED_BYTES
  }

  /** The members are the manifest and exactly the files it lists, with their sizes. */
  predicate Matches(members: seq<Member>, files: seq<ManifestFile>) {
    && (forall i :: 0 <= i < |members| ==> members[i].name == MANIFEST_FILENAME || Listed(files, members[i].name))
    && forall j :: 0 <= j < |files| ==> Holds(members, files[j])
  }

  predicate Listed(files: seq<ManifestFile>, name: string) {
    exists j :: 0 <= j < |files| && files[j].path == name
  }

  predicate Holds(members: seq<Member>, file: ManifestFile) {
    exists i :: 0 <= i < |members| && members[i].name == file.path && |members[i].data| == file.size
  }

  function ReadStructure(lib: Library, members: seq<Member>): Option<Structure> {
    if !MembersOk(lib, members) || members == [] then None
    else
      var manifest := lib.decode(members[0].data);
      if manifest.None? then None
      else
        var files := ParseManifest(lib, manifest.value);
        if files.None? || !Matches(members, files.value) || Total(files.value) > MAX_ARCHIVE_UNCOMPRESSED_BYTES then None
        else Some(Structure(manifest.value, files.value, Summary(|members|, Total(files.value))))
  }

  predicate HashesMatch(lib: Library, members: seq<Member>, files: seq<ManifestFile>) {
    forall i, j :: 0 <= i < |members| && 0 <= j < |files| && members[i].name == files[j].path ==>
      lib.hash(members[i].data) == files[j].sha256
  }

  /** `validate_archive`. */
  function Validate(lib: Library, members: seq<Member>): Option<Json> {
    var structure := ReadStructure(lib, members);
    if structure.None? || !HashesMatch(lib, members, structure.value.files) then None else Some(structure.value.manifest)
  }

  /** The loop over the members of the archive. */
  method CheckMembers(lib: Library, members: seq<Member>) returns (ok: bool)
    ensures ok == MembersOk(lib, members)
  {
    hide ValidPath, PayloadSize;
    var names: set<string> := {};
    var declared := 0;
    assert members[..0] == [];
    SizeEmpty();
    for i := 0 to |members|
      invariant MembersOk(lib, members[..i]) && declared == PayloadSize(members[..i])
      invariant forall name :: name in names <==> exists j :: 0 <= j < i && members[j].name == name
    {
      var member := members[i];
      assert i > 0 ==> members[..i][0] == members[0];
      SizeSnoc(members, i);
      SizeGrows(members, i + 1, |members|);
      assert members[..|members|] == members;
      if i >= MAX_ARCHIVE_MEMBERS || !ValidPath(lib, member.name) || !member.regular {
        return false;
      }
      if i == 0 && member.name != MANIFEST_FILENAME {
        return false;
      }
      if member.name in names {
        return false;
      }
      names := names + {member.name};
      if member.name == MANIFEST_FILENAME {
        if |member.data| > MAX_MANIFEST_BYTES {
          return false;
        }
      } else {
        declared := declared + |member.data|;
        if declared > MAX_ARCHIVE_UNCOMPRESSED_BYTES {
          return false;
        }
      }
      OneMoreMember(lib, members, i);
    }
    assert members[..|members|] == members;
    return true;
  }

  lemma SizeEmpty()
    ensures PayloadSize([]) == 0
  {
  }

  lemma SizeSnoc(members: seq<Member>, i: nat)
    requires i < |members|
    ensures PayloadSize(members[..i + 1]) ==
            PayloadSize(members[..i]) + if members[i].name == MANIFEST_FILENAME then 0 else |members[i].data|
  {
    assert members[..i + 1][..i] == members[..i];
  }

  lemma {:induction false} SizeGrows(members: seq<Member>, i: nat, j: nat)
    requires i <= j <= |members|
    ensures PayloadSize(members[..i]) <= PayloadSize(members[..j])
  {
    if i < j {
      SizeGrows(members, i, j - 1);
      SizeSnoc(members, j - 1);
    }
  }

  lemma OneMoreMember(lib: Library, members: seq<Member>, i: nat)
    requires i < |members| && MembersOk(lib, members[..i]) && i < MAX_ARCHIVE_MEMBERS
    requires ValidPath(lib, members[i].name) && members[i].regular
    requires i == 0 ==> members[i].name == MANIFEST_FILENAME && |members[i].data| <= MAX_MANIFEST_BYTES
    requires forall j :: 0 <= j < i ==> members[j].name != members[i].name
    requires PayloadSize(members[..i + 1]) <= MAX_ARCHIVE_UNCOMPRESSED_BYTES
    ensures MembersOk(lib, members[..i + 1])
  {
    hide ValidPath, PayloadSize;
    var t := members[..i + 1];
    assert forall j :: 0 <= j < i ==> t[j] == members[..i][j];
  }

  /** The dictionary of the members by name. */
  ghost predicate Index(members: seq<Member>, byName: map<string, Member>) {
    && (forall i :: 0 <= i < |members| ==> members[i].name in byName && byName[members[i].name] == members[i])
    && forall name :: name in byName ==> exists i :: 0 <= i < |members| && members[i].name == name
  }

  method IndexMembers(members: seq<Member>) returns (byName: map<string, Member>)
    requires DistinctNames(members)
    ensures Index(members, byName)
  {
    byName := map[];
    for i := 0 to |members|
      invariant forall j :: 0 <= j < i ==> members[j].name in byName && byName[members[j].name] == members[j]
      invariant forall name :: name in byName ==> exists j :: 0 <= j < i && members[j].name == name
    {
      byName := byName[members[i].name := members[i]];
    }
  }

  /** The comparison with the manifest: names, then sizes. */
  method MatchFiles(members: seq<Member>, files: seq<ManifestFile>, byName: map<string, Member>) returns (ok: bool)
    requires members != [] && members[0].name == MANIFEST_FILENAME && Index(members, byName)
    ensures ok == (Matches(members, files) && Total(files) <= MAX_ARCHIVE_UNCOMPRESSED_BYTES)
  {
    hide Total, Matches, Index;
    MatchesIff(members, files, byName);
    var paths := set j | 0 <= j < |files| :: files[j].path;
    if byName.Keys != {MANIFEST_FILENAME} + paths {
      return false;
    }
    var payload := 0;
    TotalEmpty();
    for i := 0 to |files|
      invariant payload == Total(files[..i]) && payload <= MAX_ARCHIVE_UNCOMPRESSED_BYTES
      invariant forall j :: 0 <= j < i ==> SizeMatches(byName, files[j])
    {
      TotalSnoc(files, i);
      TotalGrows(files, i + 1, |files|);
      assert files[..|files|] == files && files[i].path in paths && files[i].path in byName.Keys;
      if |byName[files[i].path].data| != files[i].size {
        assert !SizeMatches(byName, files[i]);
        return false;
      }
      payload := payload + files[i].size;
      if payload > MAX_ARCHIVE_UNCOMPRESSED_BYTES {
        return false;
      }
    }
    assert files[..|files|] == files;
    return true;
  }

  predicate SizeMatches(byName: map<string, Member>, file: ManifestFile) {
    file.path in byName && |byName[file.path].data| == file.size
  }

  lemma MatchesIff(members: seq<Member>, files: seq<ManifestFile>, byName: map<string, Member>)
    requires members != [] && members[0].name == MANIFEST_FILENAME && Index(members, byName)
    ensures Matches(members, files) <==>
              && byName.Keys == {MANIFEST_FILENAME} + (set j | 0 <= j < |files| :: files[j].path)
              && forall j :: 0 <= j < |files| ==> SizeMatches(byName, files[j])
  {
    var paths := set j | 0 <= j < |files| :: files[j].path;
    forall name
      ensures name in paths <==> Listed(files, name)
    {
      if Listed(files, name) {
        var j :| 0 <= j < |files| && files[j].path == name;
        assert files[j].path in paths;
      }
    }
    forall j | 0 <= j < |files|
      ensures Holds(members, files[j]) <==> SizeMatches(byName, files[j])
    {
      if SizeMatches(byName, files[j]) {
        var i :| 0 <= i < |members| && members[i].name == files[j].path;
        assert byName[members[i].name] == members[i];
      }
    }
    if Matches(members, files) {
      forall name
        ensures name in byName.Keys <==> name in {MANIFEST_FILENAME} + paths
      {
        if name in paths {
          var j :| 0 <= j < |files| && files[j].path == name;
          assert SizeMatches(byName, files[j]);
        }
      }
    }
    if byName.Keys == {MANIFEST_FILENAME} + paths {
      assert forall i :: 0 <= i < |members| ==> members[i].name in byName.Keys;
    }
  }

  lemma TotalEmpty()
    ensures Total([]) == 0
  {
  }

  lemma TotalSnoc(files: seq<ManifestFile>, i: nat)
    requires i < |files|
    ensures Total(files[..i + 1]) == Total(files[..i]) + files[i].size
  {
    assert files[..i + 1][..i] == files[..i];
  }

  lemma {:induction false} TotalGrows(files: seq<ManifestFile>, i: nat, j: nat)
    requires i <= j <= |files|
    ensures Total(files[..i]) <= Total(files[..j])
  {
    if i < j {
      TotalGrows(files, i, j - 1);
      TotalSnoc(files, j - 1);
    }
  }

  /** `validate_archive`: the structure, then the hash of each file the manifest lists. */
  method ValidateArchive(lib: Library, members: seq<Member>) returns (r: Option<Json>)
    ensures r == Validate(lib, members)
  {
    hide ParseManifest, Matches, Total, ValidPath, PayloadSize, HashesMatch, Index;
    var ok := CheckMembers(lib, members);
    if !ok || members == [] {
      return None;
    }
    var manifest := lib.decode(members[0].data);
    if manifest.None? {
      return None;
    }
    var files := ParseManifestValue(lib, manifest.value);
    if files.None? {
      return None;
    }
    var byName := IndexMembers(members);
    ok := MatchFiles(members, files.value, byName);
    if !ok {
      return None;
    }
    MatchedAreIndexed(lib, members, files.value, byName);
    for i := 0 to |files.value|
      invariant forall j :: 0 <= j < i ==> lib.hash(byName[files.value[j].path].data) == files.value[j].sha256
    {
      if lib.hash(byName[files.value[i].path].data) != files.value[i].sha256 {
        return None;
      }
    }
    return manifest;
  }

  lemma MatchedAreIndexed(lib: Library, members: seq<Member>, files: seq<ManifestFile>, byName: map<string, Member>)
    requires Index(members, byName) && Matches(members, files)
    ensures forall j :: 0 <= j < |files| ==> files[j].path in byName
    ensures HashesMatch(lib, members, files) <==> forall j :: 0 <= j < |files| ==> lib.hash(byName[files[j].path].data) == files[j].sha256
  {
    forall j | 0 <= j < |files|
      ensures files[j].path in byName && exists i :: 0 <= i < |members| && members[i].name == files[j].path && byName[files[j].path] == members[i]
    {
      assert Holds(members, files[j]);
      var i :| 0 <= i < |members| && members[i].name == files[j].path && |members[i].data| == files[j].size;
      assert byName[members[i].name] == members[i];
    }
  }

  // ---- The writer ----

  /** `payload_manifest_files`, given the payload in the order of its paths. */
  function ManifestFiles(lib: Library, entries: seq<PayloadEntry>): Option<seq<ManifestFile>> {
    if entries == [] then Some([])
    else
      var last := entries[|entries| - 1];
      var rest := ManifestFiles(lib, entries[..|entries| - 1]);
      if rest.None? || last.kind.Directory? then rest
      else if !last.kind.Regular? || !ValidPath(lib, last.path) then None
      else Some(rest.value + [ManifestFile(last.path, |last.data|, lib.hash(last.data))])
  }

  method PayloadManifestFiles(lib: Library, entries: seq<PayloadEntry>) returns (r: Option<seq<ManifestFile>>)
    ensures r == if ManifestFiles(lib, entries) == Some([]) then None else ManifestFiles(lib, entries)
  {
    hide ValidPath;
    var files: seq<ManifestFile> := [];
    for i := 0 to |entries|
      invariant ManifestFiles(lib, entries[..i]) == Some(files)
    {
      var entry := entries[i];
      assert entries[..i + 1][..i] == entries[..i];
      if entry.kind.Link? {
        FilesFail(lib, entries, i + 1);
        return None;
      }
      if !entry.kind.Directory? {
        if !entry.kind.Regular? || !ValidPath(lib, entry.path) {
          FilesFail(lib, entries, i + 1);
          return None;
        }
        files := files + [ManifestFile(entry.path, |entry.data|, lib.hash(entry.data))];
      }
    }
    assert entries[..|entries|] == entries;
    return if files == [] then None else Some(files);
  }

  lemma {:induction false} FilesFail(lib: Library, entries: seq<PayloadEntry>, n: nat)
    requires n <= |entries| && ManifestFiles(lib, entries[..n]).None?
    ensures ManifestFiles(lib, entries).None?
    decreases |entries| - n
  {
    if n == |entries| {
      assert entries[..n] == entries;
    } else {
      assert entries[..n + 1][..n] == entries[..n];
      FilesFail(lib, entries, n + 1);
    }
  }

  function FileJson(file: ManifestFile): Json {
    Obj(map["path" := Str(file.path), "size_bytes" := Int(file.size), "sha256" := Str(file.sha256)])
  }

  function FilesJson(files: seq<ManifestFile>): (r: seq<Json>)
    ensures |r| == |files| && forall i :: 0 <= i < |r| ==> r[i] == FileJson(files[i])
  {
    seq(|files|, i requires 0 <= i < |files| => FileJson(files[i]))
  }

  /** `build_manifest`, before it is encoded. */
  function BuildManifest(backupId: string, createdAt: string, trigger: string, files: seq<ManifestFile>): Json {
    Obj(map[
          "schema_version" := Int(1), "backup_id" := Str(backupId), "created_at_utc" := Str(createdAt),
          "metadata" := Obj(map["format" := Str("tar.gz"), "kind" := Str("local"), "trigger" := Str(trigger)]),
          "files" := Arr(FilesJson(files))])
  }

  /** The files of the payload, as members of the archive. */
  function PayloadMembers(entries: seq<PayloadEntry>): seq<Member> {
    if entries == [] then []
    else
      var last := entries[|entries| - 1];
      PayloadMembers(entries[..|entries| - 1]) + if last.kind.Directory? then [] else [Member(last.path, true, last.data)]
  }

  /** `_write_archive`: the manifest first, then the files. */
  function Written(lib: Library, manifest: Json, entries: seq<PayloadEntry>): seq<Member> {
    [Member(MANIFEST_FILENAME, true, lib.encode(manifest))] + PayloadMembers(entries)
  }

  // ---- What an accepted archive holds ----

  /** Members and files that name each other one to one: as many of them, and as many bytes. */
  lemma {:induction false} Pairing(members: seq<Member>, files: seq<ManifestFile>)
    requires DistinctNames(members) && Distinct(files)
    requires forall i :: 0 <= i < |members| ==> members[i].name != MANIFEST_FILENAME
    requires Matches(members, files)
    ensures |members| == |files| && PayloadSize(members) == Total(files)
    decreases |files|
  {
    hide PayloadSize, Total, Matches, Holds, Listed, DistinctNames, Distinct;
    if files == [] {
      SizeEmpty();
      TotalEmpty();
      NothingMatches(members);
    } else {
      var n := |files| - 1;
      var i := HolderOf(members, files, n);
      var rest := members[..i] + members[i + 1..];
      RestMatches(members, files, i, rest);
      Pairing(rest, files[..n]);
      SizeWithout(members, i);
      TotalSnoc(files, n);
      assert files[..n + 1] == files;
    }
  }

  lemma NothingMatches(members: seq<Member>)
    requires Matches(members, []) && forall i :: 0 <= i < |members| ==> members[i].name != MANIFEST_FILENAME
    ensures members == []
  {
    assert members != [] ==> Listed([], members[0].name);
  }

  lemma HolderOf(members: seq<Member>, files: seq<ManifestFile>, n: nat) returns (i: nat)
    requires Matches(members, files) && n < |files|
    ensures i < |members| && members[i].name == files[n].path && |members[i].data| == files[n].size
  {
    assert Holds(members, files[n]);
    i :| 0 <= i < |members| && members[i].name == files[n].path && |members[i].data| == files[n].size;
  }

  lemma RestMatches(members: seq<Member>, files: seq<ManifestFile>, i: nat, rest: seq<Member>)
    requires DistinctNames(members) && Distinct(files) && Matches(members, files) && files != [] && i < |members|
    requires members[i].name == files[|files| - 1].path && rest == members[..i] + members[i + 1..]
    requires forall j :: 0 <= j < |members| ==> members[j].name != MANIFEST_FILENAME
    ensures Matches(rest, files[..|files| - 1]) && DistinctNames(rest) && Distinct(files[..|files| - 1])
    ensures forall j :: 0 <= j < |rest| ==> rest[j].name != MANIFEST_FILENAME
  {
    hide Holds, Listed;
    var n := |files| - 1;
    assert forall j :: 0 <= j < |rest| ==> rest[j] == members[if j < i then j else j + 1];
    forall j | 0 <= j < |rest|
      ensures Listed(files[..n], rest[j].name)
    {
      var at := if j < i then j else j + 1;
      assert rest[j] == members[at] && Listed(files, members[at].name);
      ListedBefore(files, members[at].name);
    }
    forall k | 0 <= k < n
      ensures Holds(rest, files[..n][k])
    {
      assert files[..n][k] == files[k];
      var at := HolderOf(members, files, k);
      HoldsAt(rest, files[k], if at < i then at else at - 1);
    }
  }

  lemma ListedBefore(files: seq<ManifestFile>, name: string)
    requires files != [] && Listed(files, name) && name != files[|files| - 1].path
    ensures Listed(files[..|files| - 1], name)
  {
    var j :| 0 <= j < |files| && files[j].path == name;
    assert files[..|files| - 1][j] == files[j];
  }

  lemma HoldsAt(members: seq<Member>, file: ManifestFile, i: nat)
    requires i < |members| && members[i].name == file.path && |members[i].data| == file.size
    ensures Holds(members, file)
  {
  }

  lemma {:induction false} SizeWithout(members: seq<Member>, i: nat)
    requires i < |members| && members[i].name != MANIFEST_FILENAME
    ensures PayloadSize(members) == PayloadSize(members[..i] + members[i + 1..]) + |members[i].data|
    decreases |members|
  {
    var n := |members| - 1;
    if i < n {
      SizeWithout(members[..n], i);
      var rest := members[..i] + members[i + 1..];
      assert members[..n][..i] + members[..n][i + 1..] == rest[..|rest| - 1];
    } else {
      assert members[..i] + members[i + 1..] == members[..n];
    }
  }

  /** Soundness: an accepted archive holds the manifest first, then exactly the files the manifest
      lists, each once, with the listed size and hash; and the summary counts them and their bytes. */
  lemma AcceptedArchive(lib: Library, members: seq<Member>)
    requires Validate(lib, members).Some?
    ensures members != [] && members[0].name == MANIFEST_FILENAME && DistinctNames(members)
    ensures forall i :: 0 <= i < |members| ==> members[i].regular && ValidPath(lib, members[i].name)
    ensures ReadStructure(lib, members).Some?
    ensures var s := ReadStructure(lib, members).value;
            && Validate(lib, members) == Some(s.manifest) == lib.decode(members[0].data)
            && ParseManifest(lib, s.manifest) == Some(s.files)
            && |members| == 1 + |s.files| && Matches(members[1..], s.files)
            && (forall i, j :: 0 <= i < |members| && 0 <= j < |s.files| && members[i].name == s.files[j].path ==>
                  |members[i].data| == s.files[j].size && lib.hash(members[i].data) == s.files[j].sha256)
            && s.summary == Summary(|members|, PayloadSize(members)) && PayloadSize(members) == Total(s.files)
  {
    hide ValidPath, PayloadSize, Total, ParseManifest, Sorted, Matches, Distinct;
    var s := ReadStructure(lib, members).value;
    var rest := members[1..];
    ParsedFiles(lib, s.manifest, s.files);
    assert forall i :: 0 <= i < |rest| ==> rest[i] == members[i + 1];
    RestListed(members, s.files);
    Pairing(rest, s.files);
    SizeOfFirst(members);
    forall i, j | 0 <= i < |members| && 0 <= j < |s.files| && members[i].name == s.files[j].path
      ensures |members[i].data| == s.files[j].size && lib.hash(members[i].data) == s.files[j].sha256
    {
      var k := HolderOf(members, s.files, j);
      assert k == i;
    }
  }

  lemma ParsedFiles(lib: Library, json: Json, files: seq<ManifestFile>)
    requires ParseManifest(lib, json) == Some(files)
    ensures Distinct(files) && Sorted(files)
    ensures forall i :: 0 <= i < |files| ==> files[i].path != MANIFEST_FILENAME && ValidPath(lib, files[i].path)
  {
    hide ValidPath, HeadOk, Less;
  }

  lemma RestListed(members: seq<Member>, files: seq<ManifestFile>)
    requires members != [] && members[0].name == MANIFEST_FILENAME && DistinctNames(members) && Matches(members, files)
    requires forall j :: 0 <= j < |files| ==> files[j].path != MANIFEST_FILENAME
    ensures Matches(members[1..], files) && DistinctNames(members[1..])
    ensures forall i :: 0 <= i < |members[1..]| ==> members[1..][i].name != MANIFEST_FILENAME
  {
    hide Holds, Listed;
    var rest := members[1..];
    assert forall i :: 0 <= i < |rest| ==> rest[i] == members[i + 1];
    forall j | 0 <= j < |files|
      ensures Holds(rest, files[j])
    {
      var i := HolderOf(members, files, j);
      HoldsAt(rest, files[j], i - 1);
    }
  }

  lemma {:induction false} SizeOfFirst(members: seq<Member>)
    requires members != [] && members[0].name == MANIFEST_FILENAME
    ensures PayloadSize(members) == PayloadSize(members[1..])
    decreases |members|
  {
    var n := |members| - 1;
    if n == 0 {
      assert members[..0] == [];
    } else {
      SizeOfFirst(members[..n]);
      assert members[..n][1..] == members[1..][..n - 1];
    }
  }

  // ---- What a written archive is ----

  ghost predicate SortedEntries(entries: seq<PayloadEntry>) {
    forall i, j :: 0 <= i < j < |entries| ==> Less(entries[i].path, entries[j].path)
  }

  lemma {:induction false} LessIsStrict(a: string)
    ensures !Less(a, a)
  {
    if a != "" {
      LessIsStrict(a[1..]);
    }
  }

  /** The manifest lists what the archive holds, in the same order. */
  lemma {:induction false} ManifestOf(lib: Library, entries: seq<PayloadEntry>, files: seq<ManifestFile>)
    requires ManifestFiles(lib, entries) == Some(files) && SortedEntries(entries)
    ensures var members := PayloadMembers(entries);
            && |members| == |files|
            && (forall i :: 0 <= i < |files| ==>
                  && members[i] == Member(files[i].path, true, members[i].data) && ValidPath(lib, files[i].path)
                  && files[i].size == |members[i].data| && files[i].sha256 == lib.hash(members[i].data))
    ensures forall i, j :: 0 <= i < j < |files| ==> Less(files[i].path, files[j].path)
    ensures forall i :: 0 <= i < |files| ==> exists e :: 0 <= e < |entries| && entries[e].path == files[i].path
  {
    hide ValidPath, Less;
    if entries != [] {
      var n := |entries| - 1;
      var rest := ManifestFiles(lib, entries[..n]).value;
      ManifestOf(lib, entries[..n], rest);
      forall i | 0 <= i < |rest|
        ensures exists e :: 0 <= e < |entries| && entries[e].path == rest[i].path
        ensures Less(rest[i].path, entries[n].path)
      {
        var e :| 0 <= e < n && entries[..n][e].path == rest[i].path;
        assert entries[e].path == rest[i].path;
      }
    }
  }

  lemma {:induction false} SizesAgree(members: seq<Member>, files: seq<ManifestFile>)
    requires |members| == |files|
    requires forall i :: 0 <= i < |files| ==> members[i].name != MANIFEST_FILENAME && files[i].size == |members[i].data|
    ensures PayloadSize(members) == Total(files)
  {
    if files != [] {
      SizesAgree(members[..|files| - 1], files[..|files| - 1]);
    }
  }

  /** The library reads back the manifest it writes, and its hashes are 64 hexadecimal digits. */
  ghost predicate Faithful(lib: Library, manifest: Json) {
    && lib.decode(lib.encode(manifest)) == Some(manifest)
    && forall data :: |lib.hash(data)| == 64 && lib.isHex(lib.hash(data))
  }

  predicate HeadArguments(lib: Library, backupId: string, createdAt: string, trigger: string) {
    && |backupId| == 32 && lib.isHex(backupId)
    && createdAt != "" && createdAt[|createdAt| - 1] == 'Z' && lib.isTimestamp(createdAt)
    && (trigger == "manual" || trigger == "automatic")
  }

  lemma ManifestParses(lib: Library, entries: seq<PayloadEntry>, files: seq<ManifestFile>,
                       backupId: string, createdAt: string, trigger: string)
    requires Faithful(lib, BuildManifest(backupId, createdAt, trigger, files)) && HeadArguments(lib, backupId, createdAt, trigger)
    requires ManifestFiles(lib, entries) == Some(files) && SortedEntries(entries)
    ensures ParseManifest(lib, BuildManifest(backupId, createdAt, trigger, files)) ==
            if forall i :: 0 <= i < |files| ==> files[i].path != MANIFEST_FILENAME then Some(files) else None
  {
    hide ValidPath, Less;
    var manifest := BuildManifest(backupId, createdAt, trigger, files);
    ManifestOf(lib, entries, files);
    HeadBuilds(lib, backupId, createdAt, trigger, files);
    var items := FilesJson(files);
    forall i | 0 <= i < |files|
      ensures FileOk(lib, items[i]) <==> files[i].path != MANIFEST_FILENAME
      ensures FileOk(lib, items[i]) ==> FileOf(lib, items[i]) == files[i]
    {
      FileReads(lib, files[i]);
    }
    if forall i :: 0 <= i < |files| ==> files[i].path != MANIFEST_FILENAME {
      assert FilesOf(lib, items) == files;
      forall i, j | 0 <= i < j < |files|
        ensures files[i].path != files[j].path
      {
        LessIsStrict(files[i].path);
      }
    } else {
      var i :| 0 <= i < |files| && files[i].path == MANIFEST_FILENAME;
      assert !FileOk(lib, items[i]);
    }
  }

  lemma HeadBuilds(lib: Library, backupId: string, createdAt: string, trigger: string, files: seq<ManifestFile>)
    requires HeadArguments(lib, backupId, createdAt, trigger)
    ensures var manifest := BuildManifest(backupId, createdAt, trigger, files);
            HeadOk(lib, manifest) && manifest.fields["files"] == Arr(FilesJson(files))
  {
    var metadata := Obj(map["format" := Str("tar.gz"), "kind" := Str("local"), "trigger" := Str(trigger)]);
    assert metadata.fields.Keys == {"format", "kind", "trigger"};
  }

  lemma FileReads(lib: Library, file: ManifestFile)
    requires ValidPath(lib, file.path) && |file.sha256| == 64 && lib.isHex(file.sha256)
    ensures FileOk(lib, FileJson(file)) <==> file.path != MANIFEST_FILENAME
    ensures FileOk(lib, FileJson(file)) ==> FileOf(lib, FileJson(file)) == file
  {
    hide ValidPath;
    assert FileJson(file).fields.Keys == {"path", "size_bytes", "sha256"};
  }

  /** Completeness: an archive written from a payload is accepted, and describes itself, exactly when
      no payload file is called `manifest.json` at the root and the limits on the number of members,
      the manifest and the payload hold. */
  lemma WrittenIsAccepted(lib: Library, entries: seq<PayloadEntry>, files: seq<ManifestFile>,
                          backupId: string, createdAt: string, trigger: string)
    requires Faithful(lib, BuildManifest(backupId, createdAt, trigger, files)) && HeadArguments(lib, backupId, createdAt, trigger)
    requires ManifestFiles(lib, entries) == Some(files) && SortedEntries(entries)
    ensures var manifest := BuildManifest(backupId, createdAt, trigger, files);
            var members := Written(lib, manifest, entries);
            && (Validate(lib, members).Some? <==>
                  && (forall i :: 0 <= i < |files| ==> files[i].path != MANIFEST_FILENAME)
                  && 1 + |files| <= MAX_ARCHIVE_MEMBERS
                  && |lib.encode(manifest)| <= MAX_MANIFEST_BYTES && Total(files) <= MAX_ARCHIVE_UNCOMPRESSED_BYTES)
            && (Validate(lib, members).Some? ==>
                  Validate(lib, members) == Some(manifest) &&
                  ReadStructure(lib, members) == Some(Structure(manifest, files, Summary(1 + |files|, Total(files)))))
  {
    hide *;
    var manifest := BuildManifest(backupId, createdAt, trigger, files);
    ManifestParses(lib, entries, files, backupId, createdAt, trigger);
    WrittenMembers(lib, manifest, entries, files);
    WrittenDecodes(lib, manifest, entries);
    Decides(lib, manifest, Written(lib, manifest, entries), files);
  }

  lemma WrittenDecodes(lib: Library, manifest: Json, entries: seq<PayloadEntry>)
    requires Faithful(lib, manifest)
    ensures var members := Written(lib, manifest, entries);
            |members| > 0 && members[0] == Member(MANIFEST_FILENAME, true, lib.encode(manifest)) && lib.decode(members[0].data) == Some(manifest)
  {
    hide PayloadMembers;
  }

  /** The structure of the written members, whichever of them is called like the manifest. */
  lemma WrittenMembers(lib: Library, manifest: Json, entries: seq<PayloadEntry>, files: seq<ManifestFile>)
    requires ManifestFiles(lib, entries) == Some(files) && SortedEntries(entries)
    ensures var members := Written(lib, manifest, entries);
            && |members| == 1 + |files|
            && (MembersOk(lib, members) <==>
                  && (forall i :: 0 <= i < |files| ==> files[i].path != MANIFEST_FILENAME) && 1 + |files| <= MAX_ARCHIVE_MEMBERS
                  && |lib.encode(manifest)| <= MAX_MANIFEST_BYTES && Total(files) <= MAX_ARCHIVE_UNCOMPRESSED_BYTES)
            && (MembersOk(lib, members) ==> Matches(members, files) && HashesMatch(lib, members, files))
  {
    hide *;
    var members, rest := Written(lib, manifest, entries), PayloadMembers(entries);
    PayloadRows(lib, entries, files);
    WrittenRows(lib, manifest, entries);
    if i :| 0 <= i < |files| && files[i].path == MANIFEST_FILENAME {
      assert rest[i].name == files[i].path && members[i + 1] == rest[i];
      SecondManifest(lib, members, i + 1);
    } else {
      CleanRows(lib, members, rest, files);
    }
  }

  lemma WrittenRows(lib: Library, manifest: Json, entries: seq<PayloadEntry>)
    ensures var members, rest := Written(lib, manifest, entries), PayloadMembers(entries);
            && |members| == 1 + |rest| && members[0] == Member(MANIFEST_FILENAME, true, lib.encode(manifest))
            && members[1..] == rest && forall i :: 0 <= i < |rest| ==> members[i + 1] == rest[i]
  {
    hide PayloadMembers;
  }

  ghost predicate RowsAre(lib: Library, rest: seq<Member>, files: seq<ManifestFile>) {
    && |rest| == |files|
    && (forall i :: 0 <= i < |files| ==>
          && rest[i].name == files[i].path && rest[i].regular && ValidPath(lib, rest[i].name)
          && files[i].size == |rest[i].data| && files[i].sha256 == lib.hash(rest[i].data))
    && forall i, j :: 0 <= i < j < |files| ==> Less(files[i].path, files[j].path)
  }

  lemma PayloadRows(lib: Library, entries: seq<PayloadEntry>, files: seq<ManifestFile>)
    requires ManifestFiles(lib, entries) == Some(files) && SortedEntries(entries)
    ensures RowsAre(lib, PayloadMembers(entries), files)
    ensures |PayloadMembers(entries)| == |files| && forall i :: 0 <= i < |files| ==> PayloadMembers(entries)[i].name == files[i].path
  {
    hide ValidPath, Less, PayloadMembers, ManifestFiles;
    ManifestOf(lib, entries, files);
  }

  lemma CleanRows(lib: Library, members: seq<Member>, rest: seq<Member>, files: seq<ManifestFile>)
    requires RowsAre(lib, rest, files) && forall i :: 0 <= i < |files| ==> files[i].path != MANIFEST_FILENAME
    requires |members| == 1 + |rest| && members[0].name == MANIFEST_FILENAME && members[0].regular
    requires members[1..] == rest && forall i :: 0 <= i < |rest| ==> members[i + 1] == rest[i]
    ensures MembersOk(lib, members) <==>
              && 1 + |files| <= MAX_ARCHIVE_MEMBERS && |members[0].data| <= MAX_MANIFEST_BYTES
              && Total(files) <= MAX_ARCHIVE_UNCOMPRESSED_BYTES
    ensures Matches(members, files) && HashesMatch(lib, members, files)
  {
    hide ValidPath, Less, Total, PayloadSize, Matches, HashesMatch, MembersOk, DistinctNames;
    SizeOfFirst(members);
    ManifestNameIsValid(lib);
    SizesAgree(rest, files);
    WrittenDistinct(members, rest, files);
    WrittenMatches(lib, members, rest, files);
    DistinctAreOk(lib, members);
  }

  lemma DistinctAreOk(lib: Library, members: seq<Member>)
    requires members != [] && members[0].name == MANIFEST_FILENAME && DistinctNames(members)
    requires members[0].regular && ValidPath(lib, members[0].name)
    requires forall i :: 0 <= i < |members[1..]| ==> members[1..][i].regular && ValidPath(lib, members[1..][i].name)
    ensures MembersOk(lib, members) <==>
              |members| <= MAX_ARCHIVE_MEMBERS && |members[0].data| <= MAX_MANIFEST_BYTES && PayloadSize(members) <= MAX_ARCHIVE_UNCOMPRESSED_BYTES
  {
    hide ValidPath, PayloadSize, DistinctNames;
    forall i | 0 <= i < |members|
      ensures members[i].regular && ValidPath(lib, members[i].name)
    {
      if i > 0 {
        assert members[1..][i - 1] == members[i];
      }
    }
  }

  lemma SecondManifest(lib: Library, members: seq<Member>, i: nat)
    requires 0 < i < |members| && members[0].name == members[i].name
    ensures !MembersOk(lib, members)
  {
    hide ValidPath, PayloadSize;
  }

  lemma ManifestNameIsValid(lib: Library)
    ensures ValidPath(lib, MANIFEST_FILENAME)
  {
    hide Parts, Utf8Length;
    ManifestParts();
    Utf8Bound(MANIFEST_FILENAME);
  }

  lemma ManifestParts()
    ensures Parts(MANIFEST_FILENAME) == [MANIFEST_FILENAME]
  {
    hide Parts;
    NoSlash(MANIFEST_FILENAME);
  }

  lemma {:induction false} NoSlash(value: string)
    requires forall i :: 0 <= i < |value| ==> value[i] != '/'
    ensures Parts(value) == [value]
  {
    if value != "" {
      NoSlash(value[1..]);
      assert value == [value[0]] + value[1..];
    }
  }

  lemma WrittenDistinct(members: seq<Member>, rest: seq<Member>, files: seq<ManifestFile>)
    requires |members| == 1 + |rest| && |rest| == |files| && members[0].name == MANIFEST_FILENAME
    requires forall i :: 0 <= i < |rest| ==> members[i + 1] == rest[i] && rest[i].name == files[i].path && files[i].path != MANIFEST_FILENAME
    requires forall i, j :: 0 <= i < j < |files| ==> Less(files[i].path, files[j].path)
    ensures DistinctNames(members)
  {
    hide Less;
    forall i, j | 0 <= i < j < |members|
      ensures members[i].name != members[j].name
    {
      assert members[j - 1 + 1] == rest[j - 1];
      if i > 0 {
        assert members[i - 1 + 1] == rest[i - 1];
        LessIsStrict(files[i - 1].path);
      }
    }
  }

  lemma WrittenMatches(lib: Library, members: seq<Member>, rest: seq<Member>, files: seq<ManifestFile>)
    requires |members| == 1 + |rest| && |rest| == |files| && members[0].name == MANIFEST_FILENAME && DistinctNames(members)
    requires forall i :: 0 <= i < |rest| ==> members[i + 1] == rest[i]
    requires forall i :: 0 <= i < |files| ==>
               && rest[i].name == files[i].path && files[i].size == |rest[i].data| && files[i].sha256 == lib.hash(rest[i].data)
    ensures Matches(members, files) && HashesMatch(lib, members, files)
  {
    hide Listed, Holds;
    forall i | 0 <= i < |members|
      ensures members[i].name == MANIFEST_FILENAME || Listed(files, members[i].name)
    {
      if i > 0 {
        assert members[i - 1 + 1] == rest[i - 1];
        ListedAt(files, members[i].name, i - 1);
      }
    }
    forall j | 0 <= j < |files|
      ensures Holds(members, files[j])
    {
      assert members[j + 1] == rest[j];
      HoldsAt(members, files[j], j + 1);
    }
    forall i, j | 0 <= i < |members| && 0 <= j < |files| && members[i].name == files[j].path
      ensures lib.hash(members[i].data) == files[j].sha256
    {
      assert members[j + 1] == rest[j] && i == j + 1;
    }
  }

  lemma ListedAt(files: seq<ManifestFile>, name: string, j: nat)
    requires j < |files| && files[j].path == name
    ensures Listed(files, name)
  {
  }

  lemma Decides(lib: Library, manifest: Json, members: seq<Member>, files: seq<ManifestFile>)
    requires members != [] && |members| == 1 + |files| && lib.decode(members[0].data) == Some(manifest)
    requires MembersOk(lib, members) ==>
               && ParseManifest(lib, manifest) == Some(files) && Matches(members, files) && HashesMatch(lib, members, files)
               && Total(files) <= MAX_ARCHIVE_UNCOMPRESSED_BYTES
    ensures Validate(lib, members).Some? <==> MembersOk(lib, members)
    ensures Validate(lib, members).Some? ==>
              Validate(lib, members) == Some(manifest) &&
              ReadStructure(lib, members) == Some(Structure(manifest, files, Summary(1 + |files|, Total(files))))
  {
    hide ValidPath, ParseManifest, Matches, Total, PayloadSize, HashesMatch, MembersOk;
  }
}
