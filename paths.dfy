/**
 * Relative paths below the `environments` directory, as `camino::Utf8Path`
 * treats them: a path is the sequence of its normal components, so
 * `prod/east/app.yml` is `["prod", "east", "app.yml"]` and the empty path
 * `[]` is the `environments` directory itself.
 */
module Paths {
  import opened Wrappers
  import opened Seqs

  type Path = seq<string>

  /**
   * `Path::parent`: the path without its last component; only the empty
   * path has no parent (`"app.yml"` has the parent `""`).
   */
  function Parent(p: Path): (r: Option<Path>)
    ensures r.None? <==> p == []
    ensures r.Some? ==> r.value + [p[|p| - 1]] == p
  {
    if p == [] then None else Some(p[..|p| - 1])
  }

  /** `Path::ancestors`: the path itself, then its parent, and so on up to the empty path. */
  function Ancestors(p: Path): (r: seq<Path>)
    decreases |p|
  {
    match Parent(p)
    case None => [p]
    case Some(q) => [p] + Ancestors(q)
  }

  /** The ancestors collected and reversed, as `main` does: root first, the directory itself last. */
  function RootFirst(dir: Path): seq<Path>
  {
    Reversed(Ancestors(dir))
  }

  /** `to_string` of a relative path: its components joined by `/`. */
  function Text(p: Path): string
  {
    if p == [] then ""
    else if |p| == 1 then p[0]
    else Text(p[..|p| - 1]) + "/" + p[|p| - 1]
  }

  /** The k-th ancestor is the path with its last k components removed, and there are |p| + 1 of them. */
  lemma {:induction false} AncestorsAt(p: Path, k: nat)
    requires k <= |p|
    ensures |Ancestors(p)| == |p| + 1
    ensures Ancestors(p)[k] == p[..|p| - k]
  {
    if p != [] {
      var q := p[..|p| - 1];
      if k == 0 {
        AncestorsAt(q, 0);
      } else {
        AncestorsAt(q, k - 1);
        assert q[..|q| - (k - 1)] == p[..|p| - k];
      }
    }
  }

  /**
   * Reversing the ancestors lists every prefix of the directory by increasing
   * depth: the root (the empty path) first and the directory itself last.
   */
  lemma RootFirstIsPrefixes(dir: Path)
    ensures |RootFirst(dir)| == |dir| + 1
    ensures forall i :: 0 <= i <= |dir| ==> RootFirst(dir)[i] == dir[..i]
  {
    AncestorsAt(dir, 0);
    forall i | 0 <= i <= |dir|
      ensures RootFirst(dir)[i] == dir[..i]
    {
      ReversedAt(Ancestors(dir), i);
      AncestorsAt(dir, |dir| - i);
    }
  }
}
