/** `group_yml_files_by_dir`: the `.yml` files below `environments`, grouped by their directory. */
module Grouping {
  import opened Wrappers
  import opened Paths

  /** The files of `files` whose parent is `d`, in input order. */
  function FilesIn(files: seq<Path>, d: Path): seq<Path>
  {
    if files == [] then []
    else
      var last := files[|files| - 1];
      FilesIn(files[..|files| - 1], d) + (if Parent(last) == Some(d) then [last] else [])
  }

  /** Every key is the parent of each file filed under it. */
  predicate KeyedByParent(dirs: map<Path, seq<Path>>)
  {
    forall d, f :: d in dirs && f in dirs[d] ==> Parent(f) == Some(d)
  }

  /**
   * The loop of `group_yml_files_by_dir`: a file is appended to its parent's
   * list, which is created on the parent's first file; a file with no parent
   * is skipped.  The result has a key exactly for each parent that occurs, its
   * list is that directory's files in input order, and no list is empty.
   */
  method GroupByDir(files: seq<Path>) returns (dirs: map<Path, seq<Path>>)
    ensures forall d :: d in dirs <==> exists i :: 0 <= i < |files| && Parent(files[i]) == Some(d)
    ensures forall d :: d in dirs ==> dirs[d] == FilesIn(files, d) && dirs[d] != []
  {
    dirs := map[];
    var i := 0;
    while i < |files|
      invariant 0 <= i <= |files|
      invariant forall d :: d in dirs <==> exists j :: 0 <= j < i && Parent(files[j]) == Some(d)
      invariant forall d :: d in dirs ==> dirs[d] == FilesIn(files[..i], d) && dirs[d] != []
      invariant forall d :: d !in dirs ==> FilesIn(files[..i], d) == []
    {
      var file := files[i];
      assert files[..i + 1][..i] == files[..i];
      match Parent(file) {
        case Some(dir) =>
          if dir in dirs {
            dirs := dirs[dir := dirs[dir] + [file]];
          } else {
            dirs := dirs[dir := [file]];
          }
        case None =>
      }
      i := i + 1;
    }
    assert files[..i] == files;
  }

  /**
   * A directory's group holds each file whose parent is that directory exactly
   * as often as the input does, and nothing else.
   */
  lemma {:induction false} FilesInCount(files: seq<Path>, d: Path, f: Path)
    ensures multiset(FilesIn(files, d))[f] == if Parent(f) == Some(d) then multiset(files)[f] else 0
  {
    if files != [] {
      var init, last := files[..|files| - 1], files[|files| - 1];
      FilesInCount(init, d, f);
      assert files == init + [last];
    }
  }

  /** Grouping keeps input order: the group of a concatenation is the concatenation of the groups. */
  lemma {:induction false} FilesInAppend(a: seq<Path>, b: seq<Path>, d: Path)
    ensures FilesIn(a + b, d) == FilesIn(a, d) + FilesIn(b, d)
  {
    if b != [] {
      var init, last := b[..|b| - 1], b[|b| - 1];
      FilesInAppend(a, init, d);
      assert (a + b)[..|a + b| - 1] == a + init;
    } else {
      assert a + b == a;
    }
  }

  /**
   * What `GroupByDir` promises, read per file: every file filed under a key
   * has that key as its parent, so a file with no parent is in no group and
   * a file is in no group but its parent's; a file with a parent is in its
   * parent's group as many times as in the input.
   */
  lemma EachFileInItsParentGroup(files: seq<Path>, dirs: map<Path, seq<Path>>)
    requires forall d :: d in dirs <==> exists i :: 0 <= i < |files| && Parent(files[i]) == Some(d)
    requires forall d :: d in dirs ==> dirs[d] == FilesIn(files, d)
    ensures KeyedByParent(dirs)
    ensures forall f :: f in files && Parent(f).Some? ==>
      Parent(f).value in dirs && multiset(dirs[Parent(f).value])[f] == multiset(files)[f]
  {
    forall d, f | d in dirs && f in dirs[d]
      ensures Parent(f) == Some(d)
    {
      FilesInCount(files, d, f);
    }
    forall f | f in files && Parent(f).Some?
      ensures Parent(f).value in dirs && multiset(dirs[Parent(f).value])[f] == multiset(files)[f]
    {
      var i :| 0 <= i < |files| && files[i] == f;
      FilesInCount(files, Parent(f).value, f);
    }
  }
}
