/** The publishing half of cmd/update/update.go: download one asset per
    catalog entry (`downloadIllustrations`), describe the generated Dart
    library (`updateLib`), and the pipeline of `main` that chains them
    after `getIllustrations`. */
module Publish {
  import opened Outcomes
  import opened Identifiers
  import opened Ordering
  import opened Catalog

  type Bytes = seq<bv8>

  /** Everything the publishing steps ask of the outside world: whether the
      asset directory can be created, the body an image URL yields (or the
      failure of requesting or reading it), which paths can be written, and
      whether `dart format` succeeds. */
  datatype Environment = Environment(
    mkdirOk: bool,
    fetch: string -> Result<Bytes>,
    writable: string -> bool,
    formatOk: bool)

  const AssetDir: string := "illustrations"
  const LibraryPath: string := "lib/illustrations.g.dart"

  /** The file an asset named `name` is saved to. */
  function AssetPath(name: string): (path: string)
  {
    AssetDir + "/" + name + ".svg"
  }

  /** Distinct identifiers give distinct asset files. */
  lemma AssetPathInjective(m: string, n: string)
    requires AssetPath(m) == AssetPath(n)
    ensures m == n
  {
    var p := AssetPath(m);
    assert m == p[|AssetDir| + 1..|p| - 4];
    assert n == p[|AssetDir| + 1..|p| - 4];
  }

  // ---------------------------------------------------------------------
  // downloadIllustrations

  /** The paths returned and the asset files written by a run. */
  datatype Downloads = Downloads(paths: seq<string>, files: map<string, Bytes>)

  // The download loop is specified for any naming function `nameOf`: its
  // properties do not depend on how names are derived. The source names
  // every file by kebabCase of the title, and DownloadIllustrations
  // instantiates `nameOf` with KebabCase.

  /** Fetching and saving one entry's asset: the bytes written, or the
      failure of the request, of reading the body, or of the write. */
  function SaveOne(e: Illustration, env: Environment, nameOf: string -> string): Result<Bytes>
  {
    var data := env.fetch(e.image);
    if data.Err? then Err(data.error)
    else if !env.writable(AssetPath(nameOf(e.title))) then Err(StoreError)
    else Ok(data.value)
  }

  /** The download loop over `ills`, once the directory exists: entries are
      handled in order, and the first failure ends the run. */
  function Downloaded(ills: seq<Illustration>, env: Environment, nameOf: string -> string): Result<Downloads>
    decreases |ills|
  {
    if ills == [] then Ok(Downloads([], map[]))
    else
      var prev := Downloaded(ills[..|ills| - 1], env, nameOf);
      var e := ills[|ills| - 1];
      var path := AssetPath(nameOf(e.title));
      if prev.Err? then prev
      else match SaveOne(e, env, nameOf)
        case Err(f) => Err(f)
        case Ok(data) => Ok(Downloads(prev.value.paths + [path], prev.value.files[path := data]))
  }

  /** Once a prefix has failed, the later entries change nothing. */
  lemma {:induction false} DownloadedAfterFailure(ills: seq<Illustration>, n: nat, env: Environment, nameOf: string -> string)
    requires n <= |ills| && Downloaded(ills[..n], env, nameOf).Err?
    ensures Downloaded(ills, env, nameOf) == Downloaded(ills[..n], env, nameOf)
    decreases |ills| - n
  {
    if n < |ills| {
      var m := |ills| - 1;
      assert ills[..m][..n] == ills[..n];
      DownloadedAfterFailure(ills[..m], n, env, nameOf);
    } else {
      assert ills[..n] == ills;
    }
  }

  /** A successful run returns one path per entry, in input order, each the
      asset file of the entry's identifier, and writes exactly those files. */
  lemma {:induction false} DownloadedPaths(ills: seq<Illustration>, env: Environment, nameOf: string -> string)
    requires Downloaded(ills, env, nameOf).Ok?
    ensures |Downloaded(ills, env, nameOf).value.paths| == |ills|
    ensures forall i :: 0 <= i < |ills| ==>
      Downloaded(ills, env, nameOf).value.paths[i] == AssetPath(nameOf(ills[i].title))
    ensures Downloaded(ills, env, nameOf).value.files.Keys == set p | p in Downloaded(ills, env, nameOf).value.paths
    decreases |ills|
  {
    if ills != [] {
      var m := |ills| - 1;
      DownloadedPaths(ills[..m], env, nameOf);
    }
  }

  /** A run succeeds exactly when every entry's asset can be fetched and
      saved. */
  lemma {:induction false} DownloadedOk(ills: seq<Illustration>, env: Environment, nameOf: string -> string)
    ensures Downloaded(ills, env, nameOf).Ok? <==> forall i :: 0 <= i < |ills| ==> SaveOne(ills[i], env, nameOf).Ok?
    decreases |ills|
  {
    if ills != [] {
      var m := |ills| - 1;
      DownloadedOk(ills[..m], env, nameOf);
      assert forall i :: 0 <= i < m ==> ills[..m][i] == ills[i];
    }
  }

  /** A failed run reports the failure of the first entry that failed. */
  lemma {:induction false} DownloadedFirstFailure(ills: seq<Illustration>, env: Environment, nameOf: string -> string)
    requires Downloaded(ills, env, nameOf).Err?
    ensures exists k :: 0 <= k < |ills| && SaveOne(ills[k], env, nameOf).Err?
                        && Downloaded(ills, env, nameOf).error == SaveOne(ills[k], env, nameOf).error
                        && forall i :: 0 <= i < k ==> SaveOne(ills[i], env, nameOf).Ok?
    decreases |ills|
  {
    var m := |ills| - 1;
    var prev := Downloaded(ills[..m], env, nameOf);
    if prev.Err? {
      DownloadedFirstFailure(ills[..m], env, nameOf);
      var k :| 0 <= k < m && SaveOne(ills[..m][k], env, nameOf).Err?
        && prev.error == SaveOne(ills[..m][k], env, nameOf).error
        && forall i :: 0 <= i < k ==> SaveOne(ills[..m][i], env, nameOf).Ok?;
      assert ills[..m][k] == ills[k];
      assert forall i :: 0 <= i < k ==> ills[..m][i] == ills[i];
    } else {
      DownloadedOk(ills[..m], env, nameOf);
      assert forall i :: 0 <= i < m ==> ills[..m][i] == ills[i];
    }
  }

  /** When two entries share an identifier, the later download overwrites
      the earlier one: a path holds the bytes of the last entry saved to it. */
  lemma {:induction false} DownloadedLastWriteWins(ills: seq<Illustration>, env: Environment, nameOf: string -> string, i: nat)
    requires Downloaded(ills, env, nameOf).Ok? && i < |ills|
    requires forall j :: i < j < |ills| ==> nameOf(ills[j].title) != nameOf(ills[i].title)
    ensures SaveOne(ills[i], env, nameOf).Ok?
    ensures AssetPath(nameOf(ills[i].title)) in Downloaded(ills, env, nameOf).value.files
    ensures Downloaded(ills, env, nameOf).value.files[AssetPath(nameOf(ills[i].title))]
            == SaveOne(ills[i], env, nameOf).value
    decreases |ills|
  {
    var m := |ills| - 1;
    if i < m {
      DownloadedLastWriteWins(ills[..m], env, nameOf, i);
      assert ills[..m][i] == ills[i];
      if AssetPath(nameOf(ills[m].title)) == AssetPath(nameOf(ills[i].title)) {
        AssetPathInjective(nameOf(ills[m].title), nameOf(ills[i].title));
        assert false;
      }
    }
  }

  /** downloadIllustrations: create the asset directory, then for each entry
      in order fetch its image and save it under its identifier. */
  method DownloadIllustrations(ills: seq<Illustration>, env: Environment) returns (r: Result<Downloads>)
    ensures r == if env.mkdirOk then Downloaded(ills, env, KebabCase) else Err(StoreError)
  {
    if !env.mkdirOk {
      return Err(StoreError);
    }
    var downloads: seq<string> := [];
    var files: map<string, Bytes> := map[];
    for inx := 0 to |ills|
      invariant Downloaded(ills[..inx], env, KebabCase) == Ok(Downloads(downloads, files))
    {
      var e := ills[inx];
      assert ills[..inx + 1][..inx] == ills[..inx];
      var name := KebabCase(e.title);
      var data := env.fetch(e.image);
      if data.Err? {
        DownloadedAfterFailure(ills, inx + 1, env, KebabCase);
        return Err(data.error);
      }
      var filename := AssetPath(name);
      if !env.writable(filename) {
        DownloadedAfterFailure(ills, inx + 1, env, KebabCase);
        return Err(StoreError);
      }
      files := files[filename := data.value];
      downloads := downloads + [filename];
    }
    assert ills[..|ills|] == ills;
    return Ok(Downloads(downloads, files));
  }

  // ---------------------------------------------------------------------
  // updateLib

  /** One member of the generated enum, with the title and image its doc
      comment shows. */
  datatype EnumMember = EnumMember(name: string, title: string, image: string)

  /** One entry of the generated map: an enum member and its asset path. */
  datatype TableEntry = TableEntry(member: string, path: string)

  /** The structure of lib/illustrations.g.dart: the enum and the map. */
  datatype DartLibrary = DartLibrary(members: seq<EnumMember>, table: seq<TableEntry>)

  /** updateLib: one enum member per entry in list order, then one map
      entry per download pairing the entry at the same index with the
      path; the file is written, then formatted. The source indexes the
      entries by the download index, so there must be no more downloads
      than entries. */
  method UpdateLib(ills: seq<Illustration>, downloads: seq<string>, env: Environment) returns (r: Result<DartLibrary>)
    requires |downloads| <= |ills|
    ensures r.Ok? <==> env.writable(LibraryPath) && env.formatOk
    ensures r.Err? ==> r.error == if env.writable(LibraryPath) then FormatError else StoreError
    ensures r.Ok? ==> |r.value.members| == |ills|
    ensures r.Ok? ==> forall i :: 0 <= i < |ills| ==>
      r.value.members[i] == EnumMember(ills[i].id, ills[i].title, ills[i].image)
    ensures r.Ok? ==> |r.value.table| == |downloads|
    ensures r.Ok? ==> forall i :: 0 <= i < |downloads| ==>
      r.value.table[i] == TableEntry(ills[i].id, downloads[i])
  {
    var members: seq<EnumMember> := [];
    for inx := 0 to |ills|
      invariant |members| == inx
      invariant forall i :: 0 <= i < inx ==> members[i] == EnumMember(ills[i].id, ills[i].title, ills[i].image)
    {
      var e := ills[inx];
      members := members + [EnumMember(e.id, e.title, e.image)];
    }
    var table: seq<TableEntry> := [];
    for inx := 0 to |downloads|
      invariant |table| == inx
      invariant forall i :: 0 <= i < inx ==> table[i] == TableEntry(ills[i].id, downloads[i])
    {
      var e := ills[inx];
      table := table + [TableEntry(e.id, downloads[inx])];
    }
    if !env.writable(LibraryPath) {
      return Err(StoreError);
    }
    if !env.formatOk {
      return Err(FormatError);
    }
    return Ok(DartLibrary(members, table));
  }

  // ---------------------------------------------------------------------
  // main

  /** The whole run succeeds exactly when the catalog is read, the asset
      directory is created, every asset is saved, and the library is
      written and formatted. */
  predicate SyncSucceeds(pages: seq<PageFetch>, env: Environment)
    requires Terminates(pages)
  {
    Paginate(pages).Ok? && env.mkdirOk
    && (forall e :: e in Paginate(pages).value ==> SaveOne(e, env, KebabCase).Ok?)
    && env.writable(LibraryPath) && env.formatOk
  }

  /** main: collect and sort the catalog, download the assets of the sorted
      list, and generate the library from the sorted list and its paths.
      Because the sorted list is downloaded, the map lists the members in
      enum order, each with its own asset file. The ghost `ills` is the
      sorted catalog: the collected entries with their identifiers, each
      enum member made from the entry at its index. The ghost `files` is
      what the run wrote under the asset directory. Each step ends a failed
      run with its own failure: pagination, the directory, the first asset
      of the sorted list that fails, then the library write and format. */
  method Sync(pages: seq<PageFetch>, env: Environment)
    returns (r: Result<DartLibrary>, ghost ills: seq<Illustration>, ghost files: map<string, Bytes>)
    requires Terminates(pages)
    ensures r.Ok? <==> SyncSucceeds(pages, env)
    ensures Paginate(pages).Err? ==> r == Err(Paginate(pages).error)
    ensures Paginate(pages).Ok? ==> multiset(ills) == multiset(WithIds(Paginate(pages).value, KebabCase))
    ensures Paginate(pages).Ok? ==> SortedById(ills)
    ensures Paginate(pages).Ok? && r.Err? ==>
      r.error == (if !env.mkdirOk then StoreError
                  else if Downloaded(ills, env, KebabCase).Err? then Downloaded(ills, env, KebabCase).error
                  else if !env.writable(LibraryPath) then StoreError
                  else FormatError)
    ensures r.Ok? ==> |r.value.members| == |r.value.table| == |Paginate(pages).value|
    ensures r.Ok? ==> forall i :: 0 <= i < |r.value.table| ==>
      r.value.table[i] == TableEntry(r.value.members[i].name, AssetPath(r.value.members[i].name))
    ensures r.Ok? ==> forall i, j :: 0 <= i < j < |r.value.members| ==>
      NotAfter(r.value.members[i].name, r.value.members[j].name)
    ensures r.Ok? ==> forall m :: m in r.value.members ==> m.name == KebabCase(m.title)
    ensures r.Ok? ==> |ills| == |r.value.members| && forall i :: 0 <= i < |ills| ==>
      r.value.members[i] == EnumMember(ills[i].id, ills[i].title, ills[i].image)
    ensures r.Ok? ==> Downloaded(ills, env, KebabCase).Ok? && files == Downloaded(ills, env, KebabCase).value.files
    ensures r.Ok? ==> files.Keys == set t | t in r.value.table :: t.path
    ensures r.Ok? ==> forall i :: 0 <= i < |ills| && LastOfName(ills, i, KebabCase) ==>
      AssetPath(r.value.members[i].name) in files
      && SaveOne(ills[i], env, KebabCase) == Ok(files[AssetPath(r.value.members[i].name)])
  {
    files := map[];
    var collected := GetIllustrations(pages);
    if collected.Err? {
      return Err(collected.error), [], files;
    }
    var sorted := collected.value;
    ills := sorted;
    SortedEntriesHaveIds(pages, sorted, KebabCase);
    SavedIff(Paginate(pages).value, sorted, env, KebabCase);
    var downloaded := DownloadIllustrations(sorted, env);
    DownloadedOk(sorted, env, KebabCase);
    if downloaded.Err? {
      r := Err(downloaded.error);
      return;
    }
    files := downloaded.value.files;
    DownloadedPaths(sorted, env, KebabCase);
    var paths := downloaded.value.paths;
    r := UpdateLib(sorted, paths, env);
    if r.Ok? {
      LibraryOfSorted(sorted, paths, r.value, KebabCase);
      SyncFiles(sorted, env, KebabCase, downloaded.value, r.value);
    }
  }

  /** No later entry of `ills` has the name of entry `i`: its asset is the
      last one written to its file. */
  predicate LastOfName(ills: seq<Illustration>, i: nat, nameOf: string -> string)
    requires i < |ills|
  {
    forall j :: i < j < |ills| ==> nameOf(ills[j].title) != nameOf(ills[i].title)
  }

  /** The files of a successful download of `ills`, seen through the
      library generated from it: one file per map entry, and the file of
      a member holds its entry's asset unless a later entry of the same
      name overwrote it. */
  lemma SyncFiles(ills: seq<Illustration>, env: Environment, nameOf: string -> string, d: Downloads, lib: DartLibrary)
    requires Downloaded(ills, env, nameOf) == Ok(d)
    requires forall e :: e in ills ==> e.id == nameOf(e.title)
    requires |lib.members| == |ills| && |lib.table| == |d.paths| == |ills|
    requires forall i :: 0 <= i < |ills| ==> lib.members[i] == EnumMember(ills[i].id, ills[i].title, ills[i].image)
    requires forall i :: 0 <= i < |ills| ==> lib.table[i] == TableEntry(ills[i].id, d.paths[i])
    ensures d.files.Keys == set t | t in lib.table :: t.path
    ensures forall i :: 0 <= i < |ills| && LastOfName(ills, i, nameOf) ==>
      AssetPath(lib.members[i].name) in d.files && SaveOne(ills[i], env, nameOf) == Ok(d.files[AssetPath(lib.members[i].name)])
  {
    SyncFileKeys(ills, env, nameOf, d, lib.table);
    forall i | 0 <= i < |ills| && LastOfName(ills, i, nameOf)
      ensures AssetPath(lib.members[i].name) in d.files
      ensures SaveOne(ills[i], env, nameOf) == Ok(d.files[AssetPath(lib.members[i].name)])
    {
      assert ills[i] in ills;
      DownloadedLastWriteWins(ills, env, nameOf, i);
    }
  }

  /** The files written are exactly the paths the map lists. */
  lemma SyncFileKeys(ills: seq<Illustration>, env: Environment, nameOf: string -> string, d: Downloads, table: seq<TableEntry>)
    requires Downloaded(ills, env, nameOf) == Ok(d)
    requires |table| == |d.paths|
    requires forall i :: 0 <= i < |table| ==> table[i].path == d.paths[i]
    ensures d.files.Keys == set t | t in table :: t.path
  {
    DownloadedPaths(ills, env, nameOf);
    forall t | t in table ensures t.path in d.paths {
      var i :| 0 <= i < |table| && table[i] == t;
    }
    forall p | p in d.paths ensures p in set t | t in table :: t.path {
      var i :| 0 <= i < |d.paths| && d.paths[i] == p;
      assert table[i] in table;
    }
  }

  /** A list saves completely exactly when another with the same entries up
      to identifiers does: saving looks at the title and image only. */
  lemma SavedIff(p: seq<Illustration>, s: seq<Illustration>, env: Environment, nameOf: string -> string)
    requires multiset(s) == multiset(WithIds(p, nameOf))
    ensures (forall i :: 0 <= i < |s| ==> SaveOne(s[i], env, nameOf).Ok?)
            <==> (forall e :: e in p ==> SaveOne(e, env, nameOf).Ok?)
  {
    var w := WithIds(p, nameOf);
    if forall i :: 0 <= i < |s| ==> SaveOne(s[i], env, nameOf).Ok? {
      forall e | e in p ensures SaveOne(e, env, nameOf).Ok? {
        var j :| 0 <= j < |p| && p[j] == e;
        assert w[j] in multiset(s);
      }
    }
    if forall e :: e in p ==> SaveOne(e, env, nameOf).Ok? {
      forall i | 0 <= i < |s| ensures SaveOne(s[i], env, nameOf).Ok? {
        assert s[i] in multiset(w);
        var j :| 0 <= j < |w| && w[j] == s[i];
        assert p[j] in p;
      }
    }
  }

  /** The library generated from a sorted list with derived identifiers and
      its asset paths: the map pairs each member with its own asset file,
      in enum order. */
  lemma LibraryOfSorted(ills: seq<Illustration>, paths: seq<string>, lib: DartLibrary, nameOf: string -> string)
    requires forall e :: e in ills ==> e.id == nameOf(e.title)
    requires SortedById(ills)
    requires |paths| == |ills| && forall i :: 0 <= i < |ills| ==> paths[i] == AssetPath(nameOf(ills[i].title))
    requires |lib.members| == |ills|
    requires forall i :: 0 <= i < |ills| ==> lib.members[i] == EnumMember(ills[i].id, ills[i].title, ills[i].image)
    requires |lib.table| == |paths|
    requires forall i :: 0 <= i < |paths| ==> lib.table[i] == TableEntry(ills[i].id, paths[i])
    ensures forall i :: 0 <= i < |lib.table| ==>
      lib.table[i] == TableEntry(lib.members[i].name, AssetPath(lib.members[i].name))
    ensures forall i, j :: 0 <= i < j < |lib.members| ==> NotAfter(lib.members[i].name, lib.members[j].name)
    ensures forall m :: m in lib.members ==> m.name == nameOf(m.title)
  {
    forall i | 0 <= i < |lib.table|
      ensures lib.table[i] == TableEntry(lib.members[i].name, AssetPath(lib.members[i].name))
    {
      assert ills[i] in ills;
    }
    forall m | m in lib.members ensures m.name == nameOf(m.title) {
      var i :| 0 <= i < |lib.members| && lib.members[i] == m;
      assert ills[i] in ills;
    }
  }
}
