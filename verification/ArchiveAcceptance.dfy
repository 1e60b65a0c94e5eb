/** Which archives the validator accepts, exactly: a description that owes nothing to the order in which
    the validator checks, and the proof that both agree on every archive. */
module ArchiveAcceptance {
  import opened Common
  import opened BackupArchive

  // ---- Paths ----

  function Joined(parts: seq<string>): string {
    if parts == [] then "" else if |parts| == 1 then parts[0] else parts[0] + "/" + Joined(parts[1..])
  }

  predicate SlashFree(part: string) {
    forall i :: 0 <= i < |part| ==> part[i] != '/'
  }

  /** Names joined by slashes, none of which is empty or made of one or two dots: a relative path that
      does not climb. */
  ghost predicate StaysInside(value: string) {
    exists names: seq<string> :: names != [] && Joined(names) == value &&
      forall i :: 0 <= i < |names| ==> SlashFree(names[i]) && names[i] != "" && names[i] != "." && names[i] != ".."
  }

  /** A path that may stand in an archive. */
  ghost predicate GoodPath(lib: Library, value: string) {
    && value != "" && Utf8Length(value) <= 4096
    && (forall i :: 0 <= i < |value| ==> value[i] != '\\' && value[i] as int >= 32 && value[i] as int != 127)
    && !(|value| >= 2 && lib.isAlpha(value[0]) && value[1] == ':')
    && (value == "." || StaysInside(value))
  }

  lemma {:induction false} PartsJoin(value: string)
    ensures Joined(Parts(value)) == value
    ensures forall i :: 0 <= i < |Parts(value)| ==> SlashFree(Parts(value)[i])
  {
    if value != "" {
      var rest := Parts(value[1..]);
      PartsJoin(value[1..]);
      if value[0] == '/' {
        assert ([""] + rest)[1..] == rest;
        assert value == "" + "/" + value[1..];
      } else {
        var first := [value[0]] + rest[0];
        var parts := [first] + rest[1..];
        assert parts[1..] == rest[1..];
        assert value == [value[0]] + value[1..];
        if |rest| > 1 {
          assert first + "/" + Joined(rest[1..]) == [value[0]] + (rest[0] + "/" + Joined(rest[1..]));
        }
      }
    }
  }

  lemma {:induction false} PartsOfJoined(first: string, rest: seq<string>)
    requires SlashFree(first) && forall i :: 0 <= i < |rest| ==> SlashFree(rest[i])
    ensures Parts(Joined([first] + rest)) == [first] + rest
    decreases |rest|, |first|
  {
    var value := Joined([first] + rest);
    assert ([first] + rest)[1..] == rest;
    if first == "" {
      if rest != [] {
        assert value == "/" + Joined(rest);
        assert value[1..] == Joined(rest);
        PartsOfJoined(rest[0], rest[1..]);
        assert [rest[0]] + rest[1..] == rest;
      }
    } else {
      assert ([first[1..]] + rest)[1..] == rest;
      assert value[1..] == Joined([first[1..]] + rest);
      PartsOfJoined(first[1..], rest);
      assert [first[0]] + first[1..] == first;
      assert ([first[1..]] + rest)[1..] == rest;
    }
  }

  lemma GoodPathIff(lib: Library, value: string)
    ensures ValidPath(lib, value) <==> GoodPath(lib, value)
  {
    hide Utf8Length, Parts, Joined, SlashFree;
    PartsJoin(value);
    forall i | 0 <= i < |value|
      ensures value[i] >= ' ' && value[i] != '\U{7F}' <==> value[i] as int >= 32 && value[i] as int != 127
    {
    }
    if StaysInside(value) {
      var names: seq<string> :| names != [] && Joined(names) == value &&
        forall i :: 0 <= i < |names| ==> SlashFree(names[i]) && names[i] != "" && names[i] != "." && names[i] != "..";
      assert names == [names[0]] + names[1..];
      PartsOfJoined(names[0], names[1..]);
      assert Parts(value) == names;
    }
  }

  // ---- The manifest ----

  /** What a manifest must say before its list of files. */
  predicate GoodHead(lib: Library, json: Json) {
    && json.Obj? && {"schema_version", "backup_id", "created_at_utc", "metadata", "files"} <= json.fields.Keys
    && json.fields["schema_version"] in [Int(1), Float(1.0), Bool(true)]
    && json.fields["backup_id"].Str? && |json.fields["backup_id"].s| == 32 && lib.isHex(json.fields["backup_id"].s)
    && json.fields["created_at_utc"].Str? && lib.isTimestamp(json.fields["created_at_utc"].s)
    && (var at := json.fields["created_at_utc"].s; at != "" && at[|at| - 1] == 'Z')
    && json.fields["metadata"].Obj? && json.fields["files"].Arr?
    && (json.fields["metadata"].fields == map["format" := Str("tar.gz"), "kind" := Str("local"), "trigger" := Str("manual")]
        || json.fields["metadata"].fields == map["format" := Str("tar.gz"), "kind" := Str("local"), "trigger" := Str("automatic")])
  }

  lemma GoodHeadIff(lib: Library, json: Json)
    ensures HeadOk(lib, json) <==> GoodHead(lib, json)
  {
    if json.Obj? && "metadata" in json.fields && json.fields["metadata"].Obj? {
      TriggerIff(json.fields["metadata"], "manual");
      TriggerIff(json.fields["metadata"], "automatic");
    }
  }

  lemma TriggerIff(metadata: Json, trigger: string)
    requires metadata.Obj?
    ensures metadata.fields == map["format" := Str("tar.gz"), "kind" := Str("local"), "trigger" := Str(trigger)] <==>
              && HasKeys(metadata, {"format", "kind", "trigger"})
              && IsText(Field(metadata, "format"), "tar.gz") && IsText(Field(metadata, "kind"), "local")
              && IsText(Field(metadata, "trigger"), trigger)
  {
    var expected := map["format" := Str("tar.gz"), "kind" := Str("local"), "trigger" := Str(trigger)];
    assert expected.Keys == {"format", "kind", "trigger"};
    if HasKeys(metadata, {"format", "kind", "trigger"}) && IsText(Field(metadata, "format"), "tar.gz")
      && IsText(Field(metadata, "kind"), "local") && IsText(Field(metadata, "trigger"), trigger) {
      assert metadata.fields == expected;
    }
  }

  /** What a manifest must say of one file. */
  ghost predicate GoodFile(lib: Library, raw: Json, file: ManifestFile) {
    && raw.Obj? && raw.fields == map["path" := Str(file.path), "size_bytes" := Int(file.size), "sha256" := Str(file.sha256)]
    && GoodPath(lib, file.path) && |file.sha256| == 64 && lib.isHex(file.sha256)
  }

  lemma GoodFileIff(lib: Library, raw: Json, file: ManifestFile)
    ensures GoodFile(lib, raw, file) && file.path != "manifest.json" <==> FileOk(lib, raw) && FileOf(lib, raw) == file
  {
    hide ValidPath, GoodPath;
    GoodPathIff(lib, file.path);
    var expected := map["path" := Str(file.path), "size_bytes" := Int(file.size), "sha256" := Str(file.sha256)];
    assert expected.Keys == {"path", "size_bytes", "sha256"};
    if FileOk(lib, raw) && FileOf(lib, raw) == file {
      assert raw.fields == expected;
    }
  }

  /** The manifest lists these files, in the order of their paths. */
  ghost predicate Lists(lib: Library, json: Json, files: seq<ManifestFile>) {
    && GoodHead(lib, json) && |json.fields["files"].items| == |files|
    && (forall j :: 0 <= j < |files| ==> GoodFile(lib, json.fields["files"].items[j], files[j]))
    && forall j, k :: 0 <= j < k < |files| ==> Less(files[j].path, files[k].path)
  }

  lemma ListsIff(lib: Library, json: Json, files: seq<ManifestFile>)
    ensures Lists(lib, json, files) && (forall j :: 0 <= j < |files| ==> files[j].path != "manifest.json")
            <==> ParseManifest(lib, json) == Some(files)
  {
    hide HeadOk, GoodHead, FileOk, GoodFile, Less, FileOf;
    GoodHeadIff(lib, json);
    GoodHeadFiles(lib, json);
    if GoodHead(lib, json) && |json.fields["files"].items| == |files| {
      var items := json.fields["files"].items;
      forall j | 0 <= j < |files|
        ensures GoodFile(lib, items[j], files[j]) && files[j].path != "manifest.json" <==>
                  FileOk(lib, items[j]) && FileOf(lib, items[j]) == files[j]
      {
        GoodFileIff(lib, items[j], files[j]);
      }
      OrderIff(files);
      if forall j :: 0 <= j < |items| ==> FileOk(lib, items[j]) {
        assert FilesOf(lib, items) == files <==> forall j :: 0 <= j < |files| ==> FileOf(lib, items[j]) == files[j];
      }
    }
  }

  lemma GoodHeadFiles(lib: Library, json: Json)
    ensures GoodHead(lib, json) ==> json.Obj? && "files" in json.fields && json.fields["files"].Arr?
  {
  }

  lemma OrderIff(files: seq<ManifestFile>)
    ensures Sorted(files) && Distinct(files) <==> forall j, k :: 0 <= j < k < |files| ==> Less(files[j].path, files[k].path)
  {
    hide Less;
    forall j | 0 <= j < |files|
      ensures !Less(files[j].path, files[j].path)
    {
      LessIsStrict(files[j].path);
    }
  }

  // ---- The archive ----

  /** `file` is the member `i`, which is not the manifest. */
  predicate IsMember(lib: Library, members: seq<Member>, file: ManifestFile, i: nat) {
    && 0 < i < |members| && members[i].name == file.path
    && |members[i].data| == file.size && lib.hash(members[i].data) == file.sha256
  }

  ghost predicate HasMember(lib: Library, members: seq<Member>, file: ManifestFile) {
    exists i :: IsMember(lib, members, file, i)
  }

  /** The manifest first, under its name and small enough to read; regular files only, at distinct paths
      inside the archive; and after the manifest exactly the files it lists. */
  ghost predicate GoodArchive(lib: Library, members: seq<Member>, json: Json, files: seq<ManifestFile>) {
    && 0 < |members| <= 100_000
    && members[0].name == "manifest.json" && |members[0].data| <= 4 * 1024 * 1024 && lib.decode(members[0].data) == Some(json)
    && (forall i :: 0 <= i < |members| ==> members[i].regular && GoodPath(lib, members[i].name))
    && (forall i, j :: 0 <= i < j < |members| ==> members[i].name != members[j].name)
    && Lists(lib, json, files) && |members| == 1 + |files|
    && (forall j :: 0 <= j < |files| ==> HasMember(lib, members, files[j]))
    && Total(files) <= 128 * 1024 * 1024 * 1024
  }

  /** The validator accepts an archive, with this manifest, exactly when it is good. */
  lemma AcceptedIff(lib: Library, members: seq<Member>, json: Json)
    ensures Validate(lib, members) == Some(json) <==> exists files :: GoodArchive(lib, members, json, files)
  {
    hide *;
    if Validate(lib, members) == Some(json) {
      AcceptedIsGood(lib, members, json);
    }
    if files :| GoodArchive(lib, members, json, files) {
      GoodIsAccepted(lib, members, json, files);
    }
  }

  lemma AcceptedIsGood(lib: Library, members: seq<Member>, json: Json)
    requires Validate(lib, members) == Some(json)
    ensures exists files :: GoodArchive(lib, members, json, files)
  {
    hide ValidPath, GoodPath, PayloadSize, Total, ParseManifest, Matches, Lists, HashesMatch;
    AcceptedArchive(lib, members);
    assert MembersOk(lib, members);
    var files := ReadStructure(lib, members).value.files;
    ListsIff(lib, json, files);
    forall i | 0 <= i < |members|
      ensures GoodPath(lib, members[i].name)
    {
      GoodPathIff(lib, members[i].name);
    }
    forall j | 0 <= j < |files|
      ensures HasMember(lib, members, files[j])
    {
      var i := HolderOf(members[1..], files, j);
      assert members[1..][i] == members[i + 1];
      assert IsMember(lib, members, files[j], i + 1);
    }
    assert GoodArchive(lib, members, json, files);
  }

  /** As many names as paths: every member is listed. */
  lemma EveryMemberListed(lib: Library, members: seq<Member>, files: seq<ManifestFile>)
    requires |members| == 1 + |files| && DistinctNames(members) && Distinct(files)
    requires forall j :: 0 <= j < |files| ==> HasMember(lib, members, files[j])
    ensures forall i :: 0 < i < |members| ==> Listed(files, members[i].name)
  {
    var rest := members[1..];
    assert forall i :: 0 <= i < |rest| ==> rest[i] == members[i + 1];
    var names, paths := set i | 0 <= i < |rest| :: rest[i].name, set j | 0 <= j < |files| :: files[j].path;
    CountNames(rest);
    CountPaths(files);
    forall path | path in paths
      ensures path in names
    {
      var j :| 0 <= j < |files| && files[j].path == path;
      var i :| IsMember(lib, members, files[j], i);
      assert rest[i - 1].name == path;
    }
    SameSize(paths, names);
    forall i | 0 < i < |members|
      ensures Listed(files, members[i].name)
    {
      assert rest[i - 1].name in names;
    }
  }

  lemma SameSize(a: set<string>, b: set<string>)
    requires a <= b && |a| == |b|
    ensures a == b
  {
    assert |b - a| == 0;
  }

  lemma {:induction false} CountNames(members: seq<Member>)
    requires DistinctNames(members)
    ensures |set i | 0 <= i < |members| :: members[i].name| == |members|
  {
    if members != [] {
      var n := |members| - 1;
      CountNames(members[..n]);
      var init := set i | 0 <= i < n :: members[..n][i].name;
      assert (set i | 0 <= i < |members| :: members[i].name) == init + {members[n].name};
    }
  }

  lemma {:induction false} CountPaths(files: seq<ManifestFile>)
    requires Distinct(files)
    ensures |set j | 0 <= j < |files| :: files[j].path| == |files|
  {
    if files != [] {
      var n := |files| - 1;
      CountPaths(files[..n]);
      var init := set j | 0 <= j < n :: files[..n][j].path;
      assert (set j | 0 <= j < |files| :: files[j].path) == init + {files[n].path};
    }
  }

  lemma GoodIsAccepted(lib: Library, members: seq<Member>, json: Json, files: seq<ManifestFile>)
    requires GoodArchive(lib, members, json, files)
    ensures Validate(lib, members) == Some(json)
  {
    hide ValidPath, GoodPath, PayloadSize, Total, ParseManifest, Lists, Listed, Less, Distinct, Sorted;
    ListedOrder(lib, json, files);
    OrderIff(files);
    forall i | 0 <= i < |members|
      ensures ValidPath(lib, members[i].name)
    {
      GoodPathIff(lib, members[i].name);
    }
    forall j | 0 <= j < |files|
      ensures files[j].path != "manifest.json" && Holds(members, files[j])
    {
      var i :| IsMember(lib, members, files[j], i);
      HoldsAt(members, files[j], i);
    }
    ListsIff(lib, json, files);
    EveryMemberListed(lib, members, files);
    forall i, j | 0 <= i < |members| && 0 <= j < |files| && members[i].name == files[j].path
      ensures lib.hash(members[i].data) == files[j].sha256
    {
      var k :| IsMember(lib, members, files[j], k);
      assert i == k;
    }
    assert Matches(members, files);
    RestListed(members, files);
    Pairing(members[1..], files);
    SizeOfFirst(members);
  }

  lemma ListedOrder(lib: Library, json: Json, files: seq<ManifestFile>)
    requires Lists(lib, json, files)
    ensures forall j, k :: 0 <= j < k < |files| ==> Less(files[j].path, files[k].path)
  {
  }

  // ---- The order of paths, and the payload ----

  /** `k` is where two texts first differ, and `a` is the lesser there, or has ended. */
  predicate FirstLess(a: string, b: string, k: nat) {
    k <= |a| && k < |b| && (forall i :: 0 <= i < k ==> a[i] == b[i]) && (k == |a| || a[k] < b[k])
  }

  /** Python's order of texts. */
  ghost predicate Precedes(a: string, b: string) {
    exists k :: FirstLess(a, b, k)
  }

  lemma PrecedesTail(a: string, b: string)
    requires a != "" && b != "" && a[0] == b[0]
    ensures Precedes(a, b) <==> Precedes(a[1..], b[1..])
  {
    if k: nat :| FirstLess(a, b, k) {
      assert FirstLess(a[1..], b[1..], k - 1);
    }
    if k: nat :| FirstLess(a[1..], b[1..], k) {
      assert forall i :: 0 < i < k + 1 ==> a[i] == a[1..][i - 1] && b[i] == b[1..][i - 1];
      assert FirstLess(a, b, k + 1);
    }
  }

  lemma PrecedesHeads(a: string, b: string)
    requires a == "" || b == "" || a[0] != b[0]
    ensures Precedes(a, b) <==> b != "" && (a == "" || a[0] < b[0])
  {
    if b != "" && (a == "" || a[0] < b[0]) {
      assert FirstLess(a, b, 0);
    }
  }

  lemma {:induction false} LessIff(a: string, b: string)
    ensures Less(a, b) <==> Precedes(a, b)
  {
    hide Precedes;
    if a != "" && b != "" && a[0] == b[0] {
      LessIff(a[1..], b[1..]);
      PrecedesTail(a, b);
    } else {
      PrecedesHeads(a, b);
    }
  }

  /** What can be listed of a payload: directories do not count, links and special files and bad paths
      make it fail. */
  predicate Listable(lib: Library, entry: PayloadEntry) {
    entry.kind.Directory? || (entry.kind.Regular? && ValidPath(lib, entry.path))
  }

  /** A payload is listed exactly when each of its entries can be, and then each of its regular files
      stands in the list with its size and hash, and nothing else does. */
  lemma {:induction false} PayloadListed(lib: Library, entries: seq<PayloadEntry>)
    ensures ManifestFiles(lib, entries).Some? <==> forall i :: 0 <= i < |entries| ==> Listable(lib, entries[i])
    ensures ManifestFiles(lib, entries).Some? ==>
              forall file :: file in ManifestFiles(lib, entries).value <==>
                exists i :: 0 <= i < |entries| && entries[i].kind.Regular?
                  && file == ManifestFile(entries[i].path, |entries[i].data|, lib.hash(entries[i].data))
  {
    hide ValidPath;
    if entries != [] {
      var n := |entries| - 1;
      PayloadListed(lib, entries[..n]);
      assert forall i :: 0 <= i < n ==> entries[..n][i] == entries[i];
      if ManifestFiles(lib, entries).Some? {
        var files, rest := ManifestFiles(lib, entries).value, ManifestFiles(lib, entries[..n]).value;
        forall file
          ensures file in files <==>
                    || file in rest
                    || (entries[n].kind.Regular? && file == ManifestFile(entries[n].path, |entries[n].data|, lib.hash(entries[n].data)))
        {
        }
      }
    }
  }
}
