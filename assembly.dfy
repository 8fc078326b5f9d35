/**
 * The per-directory loop of `main`: for every directory that holds `.yml`
 * files, the flag overlays of its ancestors are merged root first, then the
 * files of its ancestors, root first and each directory's files in order; a
 * file is read and parsed once per run and taken from a cache afterwards.
 * Reading and parsing a file (`load`) and the recursive JSON merge (`merge`)
 * are parameters: only the order in which they are applied is modelled.
 */
module Assembly {
  import opened Wrappers
  import opened Seqs
  import opened Paths
  import opened JsonValues
  import opened Grouping

  /** `merged_recursive::<Dfs>`: the merge of a document with the next one. */
  type Merge = (Json, Json) -> Json

  /** Reading `environments/<path>` and parsing it as YAML, or the error that stops the run. */
  type Loader = Path -> Result<Json>

  /** The merges applied one after the other, starting from `acc`. */
  function Fold(merge: Merge, acc: Json, js: seq<Json>): Json
  {
    if js == [] then acc else merge(Fold(merge, acc, js[..|js| - 1]), js[|js| - 1])
  }

  lemma FoldSnoc(merge: Merge, acc: Json, js: seq<Json>, j: Json)
    ensures Fold(merge, acc, js + [j]) == merge(Fold(merge, acc, js), j)
  {
    assert (js + [j])[..|js|] == js;
  }

  lemma {:induction false} FoldAppend(merge: Merge, acc: Json, a: seq<Json>, b: seq<Json>)
    ensures Fold(merge, acc, a + b) == Fold(merge, Fold(merge, acc, a), b)
  {
    if b == [] {
      assert a + b == a;
    } else {
      FoldAppend(merge, acc, a, b[..|b| - 1]);
      assert (a + b)[..|a + b| - 1] == a + b[..|b| - 1];
    }
  }

  // ---------------------------------------------------------------------------
  // Flag overlays

  /**
   * The key of an ancestor in the flags table: the ancestor joined below the
   * `environments` directory `env`, written relative to the `ev2` directory.
   */
  function FlagKey(env: Path, ancestor: Path): string
  {
    Text(env + ancestor)
  }

  /** The flag objects of the ancestors that have one, in the ancestors' order. */
  function FlagOverlays(flags: map<string, Json>, env: Path, ancestors: seq<Path>): seq<Json>
  {
    if ancestors == [] then []
    else
      var key := FlagKey(env, ancestors[|ancestors| - 1]);
      FlagOverlays(flags, env, ancestors[..|ancestors| - 1]) + (if key in flags then [flags[key]] else [])
  }

  lemma FlagOverlaysSnoc(flags: map<string, Json>, env: Path, ancestors: seq<Path>, k: nat)
    requires k < |ancestors|
    ensures FlagOverlays(flags, env, ancestors[..k + 1]) ==
      FlagOverlays(flags, env, ancestors[..k]) +
      (if FlagKey(env, ancestors[k]) in flags then [flags[FlagKey(env, ancestors[k])]] else [])
  {
    assert ancestors[..k + 1][..k] == ancestors[..k];
  }

  lemma {:induction false} FlagOverlaysAppend(flags: map<string, Json>, env: Path, a: seq<Path>, b: seq<Path>)
    ensures FlagOverlays(flags, env, a + b) == FlagOverlays(flags, env, a) + FlagOverlays(flags, env, b)
  {
    if b == [] {
      assert a + b == a;
    } else {
      FlagOverlaysAppend(flags, env, a, b[..|b| - 1]);
      assert (a + b)[..|a + b| - 1] == a + b[..|b| - 1];
    }
  }

  /**
   * The flag loop of `main`: starting from `{}`, the flag object of each
   * ancestor that has one is merged in, in the ancestors' order.
   */
  method OverlayFlags(flags: map<string, Json>, env: Path, ancestors: seq<Path>, merge: Merge) returns (dump: Json)
    ensures dump == Fold(merge, Obj([]), FlagOverlays(flags, env, ancestors))
  {
    dump := Obj([]);
    var k := 0;
    while k < |ancestors|
      invariant 0 <= k <= |ancestors|
      invariant dump == Fold(merge, Obj([]), FlagOverlays(flags, env, ancestors[..k]))
    {
      FlagOverlaysSnoc(flags, env, ancestors, k);
      var key := FlagKey(env, ancestors[k]);
      if key in flags {
        FoldSnoc(merge, Obj([]), FlagOverlays(flags, env, ancestors[..k]), flags[key]);
        assert FlagOverlays(flags, env, ancestors[..k + 1]) == FlagOverlays(flags, env, ancestors[..k]) + [flags[key]];
        dump := merge(dump, flags[key]);
        assert dump == Fold(merge, Obj([]), FlagOverlays(flags, env, ancestors[..k + 1]));
      } else {
        assert FlagOverlays(flags, env, ancestors[..k]) + [] == FlagOverlays(flags, env, ancestors[..k]);
        assert FlagOverlays(flags, env, ancestors[..k + 1]) == FlagOverlays(flags, env, ancestors[..k]);
      }
      k := k + 1;
    }
    assert ancestors[..k] == ancestors;
  }

  /**
   * Root first, directory last: the overlays of a directory begin with the
   * flags of the `environments` root when it has some and end with the
   * directory's own flags when it has some, so those win any merge conflict.
   */
  lemma OverlaysRootFirst(flags: map<string, Json>, env: Path, dir: Path)
    ensures var overlays := FlagOverlays(flags, env, RootFirst(dir));
      && (FlagKey(env, []) in flags ==> overlays != [] && overlays[0] == flags[FlagKey(env, [])])
      && (FlagKey(env, dir) in flags ==> overlays != [] && overlays[|overlays| - 1] == flags[FlagKey(env, dir)])
  {
    var ancestors := RootFirst(dir);
    RootFirstIsPrefixes(dir);
    assert ancestors[0] == [];
    assert ancestors[|dir|] == dir;
    assert ancestors == [ancestors[0]] + ancestors[1..];
    FlagOverlaysAppend(flags, env, [ancestors[0]], ancestors[1..]);
    assert [ancestors[0]][..0] == [];
    assert ancestors == ancestors[..|dir|] + [ancestors[|dir|]];
    FlagOverlaysAppend(flags, env, ancestors[..|dir|], [ancestors[|dir|]]);
    assert [ancestors[|dir|]][..0] == [];
  }

  // ---------------------------------------------------------------------------
  // Input files

  /** The files of the ancestors that hold some, ancestor by ancestor, each in its own order. */
  function InputList(dirsFiles: map<Path, seq<Path>>, ancestors: seq<Path>): seq<Path>
  {
    if ancestors == [] then []
    else
      var a := ancestors[|ancestors| - 1];
      InputList(dirsFiles, ancestors[..|ancestors| - 1]) + (if a in dirsFiles then dirsFiles[a] else [])
  }

  /** The input files of one directory. */
  function InputsOf(dirsFiles: map<Path, seq<Path>>, dir: Path): seq<Path>
  {
    InputList(dirsFiles, RootFirst(dir))
  }

  /** The input-list loop of `main`: the files of each ancestor are pushed in turn. */
  method CollectInputs(dirsFiles: map<Path, seq<Path>>, ancestors: seq<Path>) returns (inputs: seq<Path>)
    ensures inputs == InputList(dirsFiles, ancestors)
  {
    inputs := [];
    var k := 0;
    while k < |ancestors|
      invariant 0 <= k <= |ancestors|
      invariant inputs == InputList(dirsFiles, ancestors[..k])
    {
      assert ancestors[..k + 1][..k] == ancestors[..k];
      var ancestor := ancestors[k];
      if ancestor in dirsFiles {
        var dirFiles := dirsFiles[ancestor];
        var m := 0;
        while m < |dirFiles|
          invariant 0 <= m <= |dirFiles|
          invariant inputs == InputList(dirsFiles, ancestors[..k]) + dirFiles[..m]
        {
          assert dirFiles[..m + 1] == dirFiles[..m] + [dirFiles[m]];
          inputs := inputs + [dirFiles[m]];
          m := m + 1;
        }
        assert dirFiles[..m] == dirFiles;
      }
      k := k + 1;
    }
    assert ancestors[..k] == ancestors;
  }

  /** A file is an input exactly when it is filed under one of the ancestors. */
  lemma {:induction false} InputListMembers(dirsFiles: map<Path, seq<Path>>, ancestors: seq<Path>, f: Path)
    ensures f in InputList(dirsFiles, ancestors) <==>
      exists x :: 0 <= x < |ancestors| && ancestors[x] in dirsFiles && f in dirsFiles[ancestors[x]]
  {
    if ancestors != [] {
      var init := ancestors[..|ancestors| - 1];
      InputListMembers(dirsFiles, init, f);
      if exists x :: 0 <= x < |init| && init[x] in dirsFiles && f in dirsFiles[init[x]] {
        var x :| 0 <= x < |init| && init[x] in dirsFiles && f in dirsFiles[init[x]];
        assert ancestors[x] == init[x];
      }
      if exists x :: 0 <= x < |ancestors| && ancestors[x] in dirsFiles && f in dirsFiles[ancestors[x]] {
        var x :| 0 <= x < |ancestors| && ancestors[x] in dirsFiles && f in dirsFiles[ancestors[x]];
        if x < |init| { assert init[x] == ancestors[x]; }
      }
    }
  }

  /** A file is one component deeper than its parent directory. */
  lemma ParentDepth(f: Path, d: Path)
    requires Parent(f) == Some(d)
    ensures |f| == |d| + 1
  {
    assert d + [f[|f| - 1]] == f;
  }

  /** Files never get shallower along the list. */
  predicate DepthOrdered(files: seq<Path>)
  {
    forall i, j :: 0 <= i < j < |files| ==> |files[i]| <= |files[j]|
  }

  /**
   * When the ancestors get strictly deeper and every file is keyed by its
   * parent, the inputs never get shallower: a file of a shallower directory
   * precedes every file of a deeper one.
   */
  lemma {:induction false} InputListDepthOrdered(dirsFiles: map<Path, seq<Path>>, ancestors: seq<Path>)
    requires KeyedByParent(dirsFiles)
    requires forall x, y :: 0 <= x < y < |ancestors| ==> |ancestors[x]| < |ancestors[y]|
    ensures DepthOrdered(InputList(dirsFiles, ancestors))
  {
    if ancestors != [] {
      var init, a := ancestors[..|ancestors| - 1], ancestors[|ancestors| - 1];
      assert forall x :: 0 <= x < |init| ==> init[x] == ancestors[x];
      InputListDepthOrdered(dirsFiles, init);
      var front := InputList(dirsFiles, init);
      var group := if a in dirsFiles then dirsFiles[a] else [];
      var inputs := front + group;
      assert inputs == InputList(dirsFiles, ancestors);
      forall i, j | 0 <= i < j < |inputs| ensures |inputs[i]| <= |inputs[j]| {
        if j >= |front| {
          var g := group[j - |front|];
          assert inputs[j] == g;
          assert Parent(g) == Some(a);
          ParentDepth(g, a);
          if i < |front| {
            var f := front[i];
            assert inputs[i] == f;
            InputListMembers(dirsFiles, init, f);
            var x :| 0 <= x < |init| && init[x] in dirsFiles && f in dirsFiles[init[x]];
            assert Parent(f) == Some(init[x]);
            ParentDepth(f, init[x]);
            assert |init[x]| < |a|;
          } else {
            var f := group[i - |front|];
            assert inputs[i] == f;
            assert Parent(f) == Some(a);
            ParentDepth(f, a);
          }
        } else {
          assert inputs[i] == front[i] && inputs[j] == front[j];
          assert DepthOrdered(front);
        }
      }
    }
  }

  /**
   * The inputs of a directory are the files of its ancestors (including
   * itself), shallower directories first: every input lies in an ancestor of
   * the directory, every file of an ancestor is an input, and files never get
   * shallower along the list.
   */
  lemma InputsShallowFirst(dirsFiles: map<Path, seq<Path>>, dir: Path)
    requires KeyedByParent(dirsFiles)
    ensures DepthOrdered(InputsOf(dirsFiles, dir))
    ensures forall f :: f in InputsOf(dirsFiles, dir) <==> exists a :: a in dirsFiles && a <= dir && f in dirsFiles[a]
  {
    var ancestors := RootFirst(dir);
    RootFirstIsPrefixes(dir);
    assert forall x :: 0 <= x < |ancestors| ==> |ancestors[x]| == x;
    InputListDepthOrdered(dirsFiles, ancestors);
    forall f ensures f in InputList(dirsFiles, ancestors) <==> exists a :: a in dirsFiles && a <= dir && f in dirsFiles[a] {
      InputListMembers(dirsFiles, ancestors, f);
      if exists a :: a in dirsFiles && a <= dir && f in dirsFiles[a] {
        var a :| a in dirsFiles && a <= dir && f in dirsFiles[a];
        assert ancestors[|a|] == a;
      }
    }
  }

  // ---------------------------------------------------------------------------
  // Reading the inputs through the cache

  /** Every input loaded, in order, or the first error. */
  function LoadAll(load: Loader, paths: seq<Path>): Result<seq<Json>>
  {
    if paths == [] then Ok([])
    else
      match LoadAll(load, paths[..|paths| - 1])
      case Err(e) => Err(e)
      case Ok(js) =>
        match load(paths[|paths| - 1])
        case Err(e) => Err(e)
        case Ok(j) => Ok(js + [j])
  }

  /**
   * `LoadAll` succeeds exactly when every file loads, with the loaded
   * documents in order; otherwise it fails with the error of the first file
   * that does not load.
   */
  lemma {:induction false} LoadAllMeaning(load: Loader, paths: seq<Path>)
    ensures LoadAll(load, paths).Ok? <==> forall i :: 0 <= i < |paths| ==> load(paths[i]).Ok?
    ensures LoadAll(load, paths).Ok? ==>
      |LoadAll(load, paths).value| == |paths| &&
      forall i :: 0 <= i < |paths| ==> LoadAll(load, paths).value[i] == load(paths[i]).value
    ensures LoadAll(load, paths).Err? ==>
      exists i :: 0 <= i < |paths| && load(paths[i]) == Err(LoadAll(load, paths).error) &&
        forall j :: 0 <= j < i ==> load(paths[j]).Ok?
  {
    if paths != [] {
      var init := paths[..|paths| - 1];
      LoadAllMeaning(load, init);
      assert forall i :: 0 <= i < |init| ==> init[i] == paths[i];
    }
  }

  lemma LoadAllSnoc(load: Loader, paths: seq<Path>, p: Path)
    ensures LoadAll(load, paths + [p]) ==
      match LoadAll(load, paths)
      case Err(e) => Err(e)
      case Ok(js) => (match load(p) case Err(e) => Err(e) case Ok(j) => Ok(js + [j]))
  {
    assert (paths + [p])[..|paths|] == paths;
  }

  /** Once a prefix fails, the whole list fails with the same error. */
  lemma {:induction false} LoadAllErrPrefix(load: Loader, paths: seq<Path>, n: nat)
    requires n <= |paths|
    requires LoadAll(load, paths[..n]).Err?
    ensures LoadAll(load, paths) == LoadAll(load, paths[..n])
    decreases |paths| - n
  {
    if n < |paths| {
      assert paths[..n + 1][..n] == paths[..n];
      LoadAllErrPrefix(load, paths, n + 1);
    } else {
      assert paths[..n] == paths;
    }
  }

  /** Every cached document is what loading its path gives. */
  predicate CacheValid(cache: map<Path, Json>, load: Loader)
  {
    forall p :: p in cache ==> load(p) == Ok(cache[p])
  }

  /** The paths read so far, each once, are exactly the cached ones. */
  ghost predicate LogMatches(readLog: seq<Path>, cache: map<Path, Json>)
  {
    NoDup(readLog) && forall p :: p in readLog <==> p in cache
  }

  /**
   * One input through the cache: a cached path is not read again and gives
   * its cached document; any other path is read (logged in `readLog`) and,
   * when it loads, cached.  Either way the document is what loading the path
   * gives.
   */
  method Fetch(load: Loader, path: Path, cache0: map<Path, Json>, readLog0: seq<Path>)
    returns (loaded: Result<Json>, cache: map<Path, Json>, readLog: seq<Path>)
    requires CacheValid(cache0, load) && LogMatches(readLog0, cache0)
    ensures loaded == load(path)
    ensures CacheValid(cache, load) && NoDup(readLog)
    ensures loaded.Ok? ==> LogMatches(readLog, cache) && path in cache
    ensures path in cache0 ==> cache == cache0 && readLog == readLog0
    ensures path !in cache0 ==> readLog == readLog0 + [path]
    ensures path !in cache0 ==> cache == if loaded.Ok? then cache0[path := loaded.value] else cache0
  {
    if path in cache0 {
      loaded, cache, readLog := Ok(cache0[path]), cache0, readLog0;
    } else {
      NoDupSnoc(readLog0, path);
      readLog := readLog0 + [path];
      loaded := load(path);
      cache := if loaded.Ok? then cache0[path := loaded.value] else cache0;
    }
  }

  /**
   * The environment loop of `main`: each input is fetched through the cache
   * and merged in order; a failed read ends the loop with its error.  Over
   * the loop no path is read twice and only inputs are read.
   */
  method MergeInputs(load: Loader, merge: Merge, dump0: Json, inputs: seq<Path>,
                     cache0: map<Path, Json>, readLog0: seq<Path>)
    returns (dump: Json, cache: map<Path, Json>, readLog: seq<Path>, err: Option<string>)
    requires CacheValid(cache0, load) && LogMatches(readLog0, cache0)
    ensures CacheValid(cache, load) && NoDup(readLog) && readLog0 <= readLog
    ensures forall p :: p in readLog ==> p in readLog0 || p in inputs
    ensures err.None? ==>
      && LoadAll(load, inputs).Ok?
      && dump == Fold(merge, dump0, LoadAll(load, inputs).value)
      && LogMatches(readLog, cache)
      && forall p :: p in inputs ==> p in cache
    ensures err.Some? ==> LoadAll(load, inputs) == Err(err.value)
  {
    dump, cache, readLog, err := dump0, cache0, readLog0, None;
    var i := 0;
    while i < |inputs|
      invariant 0 <= i <= |inputs|
      invariant CacheValid(cache, load) && LogMatches(readLog, cache) && readLog0 <= readLog
      invariant forall p :: p in readLog ==> p in readLog0 || p in inputs[..i]
      invariant forall p :: p in inputs[..i] ==> p in cache
      invariant LoadAll(load, inputs[..i]).Ok?
      invariant dump == Fold(merge, dump0, LoadAll(load, inputs[..i]).value)
    {
      var path := inputs[i];
      assert inputs[..i + 1] == inputs[..i] + [path];
      LoadAllSnoc(load, inputs[..i], path);
      var loaded;
      loaded, cache, readLog := Fetch(load, path, cache, readLog);
      if loaded.Err? {
        err := Some(loaded.error);
        LoadAllErrPrefix(load, inputs, i + 1);
        return;
      }
      FoldSnoc(merge, dump0, LoadAll(load, inputs[..i]).value, loaded.value);
      dump := merge(dump, loaded.value);
      i := i + 1;
    }
    assert inputs[..i] == inputs;
  }

  // ---------------------------------------------------------------------------
  // One directory, and the run

  /** What `main` writes for a directory: its flags merged root first, then its inputs; or the load error. */
  function DirDump(flags: map<string, Json>, env: Path, dirsFiles: map<Path, seq<Path>>,
                   load: Loader, merge: Merge, dir: Path): Result<Json>
  {
    var overlaid := Fold(merge, Obj([]), FlagOverlays(flags, env, RootFirst(dir)));
    match LoadAll(load, InputsOf(dirsFiles, dir))
    case Err(e) => Err(e)
    case Ok(docs) => Ok(Fold(merge, overlaid, docs))
  }

  /**
   * `main` keeps a single accumulator per directory: when the inputs load,
   * the document is one fold of `merge` from `{}` over the flag overlays
   * followed by the loaded inputs; otherwise it is the load error.
   */
  lemma DirDumpIsOneFold(flags: map<string, Json>, env: Path, dirsFiles: map<Path, seq<Path>>,
                         load: Loader, merge: Merge, dir: Path)
    ensures var overlays := FlagOverlays(flags, env, RootFirst(dir));
      var loaded := LoadAll(load, InputsOf(dirsFiles, dir));
      && (loaded.Ok? ==> DirDump(flags, env, dirsFiles, load, merge, dir) == Ok(Fold(merge, Obj([]), overlays + loaded.value)))
      && (loaded.Err? ==> DirDump(flags, env, dirsFiles, load, merge, dir) == Err(loaded.error))
  {
    var loaded := LoadAll(load, InputsOf(dirsFiles, dir));
    if loaded.Ok? {
      FoldAppend(merge, Obj([]), FlagOverlays(flags, env, RootFirst(dir)), loaded.value);
    }
  }

  /** The body of `main`'s loop for one directory, up to the output it writes. */
  method AssembleDir(flags: map<string, Json>, env: Path, dirsFiles: map<Path, seq<Path>>,
                     load: Loader, merge: Merge, dir: Path, cache0: map<Path, Json>, readLog0: seq<Path>)
    returns (dump: Json, cache: map<Path, Json>, readLog: seq<Path>, err: Option<string>)
    requires CacheValid(cache0, load) && LogMatches(readLog0, cache0)
    ensures CacheValid(cache, load) && NoDup(readLog) && readLog0 <= readLog
    ensures forall p :: p in readLog ==> p in readLog0 || p in InputsOf(dirsFiles, dir)
    ensures err.None? ==>
      && DirDump(flags, env, dirsFiles, load, merge, dir) == Ok(dump)
      && LogMatches(readLog, cache)
      && forall p :: p in InputsOf(dirsFiles, dir) ==> p in cache
    ensures err.Some? ==> DirDump(flags, env, dirsFiles, load, merge, dir) == Err(err.value)
  {
    var ancestors := RootFirst(dir);
    var overlaid := OverlayFlags(flags, env, ancestors, merge);
    var inputs := CollectInputs(dirsFiles, ancestors);
    dump, cache, readLog, err := MergeInputs(load, merge, overlaid, inputs, cache0, readLog0);
  }

  /** One file written by `main`: the merged document of a directory. */
  datatype Dump = Dump(dir: Path, json: Json)

  /** The documents written so far are those of the first directories, in order. */
  predicate DumpsMatch(flags: map<string, Json>, env: Path, dirsFiles: map<Path, seq<Path>>,
                       load: Loader, merge: Merge, dirs: seq<Path>, dumps: seq<Dump>)
  {
    && |dumps| <= |dirs|
    && forall k :: 0 <= k < |dumps| ==>
         dumps[k].dir == dirs[k] && DirDump(flags, env, dirsFiles, load, merge, dirs[k]) == Ok(dumps[k].json)
  }

  lemma DumpsMatchSnoc(flags: map<string, Json>, env: Path, dirsFiles: map<Path, seq<Path>>,
                       load: Loader, merge: Merge, dirs: seq<Path>, dumps: seq<Dump>, dump: Json)
    requires DumpsMatch(flags, env, dirsFiles, load, merge, dirs, dumps) && |dumps| < |dirs|
    requires DirDump(flags, env, dirsFiles, load, merge, dirs[|dumps|]) == Ok(dump)
    ensures DumpsMatch(flags, env, dirsFiles, load, merge, dirs, dumps + [Dump(dirs[|dumps|], dump)])
  {
  }

  /**
   * `main`'s loop over the directories, in the order `dirs` of the grouped
   * map's keys, sharing one input cache.  It writes each directory's merged
   * document in turn and stops at the first load error.  Over the whole run
   * no file is read twice, only inputs of the directories are read, and when
   * the run succeeds every input of every directory has been read.
   */
  method Run(flags: map<string, Json>, env: Path, dirsFiles: map<Path, seq<Path>>, dirs: seq<Path>,
             load: Loader, merge: Merge)
    returns (dumps: seq<Dump>, readLog: seq<Path>, err: Option<string>)
    ensures NoDup(readLog)
    ensures forall p :: p in readLog ==> exists k :: 0 <= k < |dirs| && p in InputsOf(dirsFiles, dirs[k])
    ensures DumpsMatch(flags, env, dirsFiles, load, merge, dirs, dumps)
    ensures err.None? ==> |dumps| == |dirs|
    ensures err.None? ==> forall k, p :: 0 <= k < |dirs| && p in InputsOf(dirsFiles, dirs[k]) ==> p in readLog
    ensures err.Some? ==> |dumps| < |dirs| && DirDump(flags, env, dirsFiles, load, merge, dirs[|dumps|]) == Err(err.value)
  {
    var cache: map<Path, Json> := map[];
    dumps, readLog, err := [], [], None;
    var i := 0;
    while i < |dirs|
      invariant 0 <= i <= |dirs| && |dumps| == i && err.None?
      invariant CacheValid(cache, load) && LogMatches(readLog, cache)
      invariant forall p :: p in readLog ==> exists k :: 0 <= k < i && p in InputsOf(dirsFiles, dirs[k])
      invariant forall k, p :: 0 <= k < i && p in InputsOf(dirsFiles, dirs[k]) ==> p in readLog
      invariant DumpsMatch(flags, env, dirsFiles, load, merge, dirs, dumps)
    {
      var dump;
      ghost var readLog0 := readLog;
      dump, cache, readLog, err := AssembleDir(flags, env, dirsFiles, load, merge, dirs[i], cache, readLog);
      forall p | p in readLog ensures exists k :: 0 <= k < i + 1 && p in InputsOf(dirsFiles, dirs[k]) {
        if p !in readLog0 {
          assert p in InputsOf(dirsFiles, dirs[i]);
        }
      }
      if err.Some? {
        return;
      }
      forall k, p | 0 <= k < i + 1 && p in InputsOf(dirsFiles, dirs[k]) ensures p in readLog {
        if k < i {
          assert p in readLog0;
          var m :| 0 <= m < |readLog0| && readLog0[m] == p;
          assert readLog[m] == p;
        }
      }
      DumpsMatchSnoc(flags, env, dirsFiles, load, merge, dirs, dumps, dump);
      dumps := dumps + [Dump(dirs[i], dump)];
      i := i + 1;
    }
  }
}
