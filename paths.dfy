/**
 * Paths as text, the way the staging store keeps them (`to_str()` of a
 * `PathBuf`). Only `/`-separated Unix paths are modelled; the empty text
 * stands for the directory a relative path starts from.
 */
module Paths {
  type Path = string

  /** `PathBuf::join`: an absolute component replaces the path; otherwise a `/` is added unless the path is empty or already ends in one. */
  function Join(p: Path, c: string): (r: Path)
    ensures |r| >= |c|
    ensures |c| > 0 && c[0] != '/' && p != [] && p[|p| - 1] != '/' ==> r == p + "/" + c
  {
    if |c| > 0 && c[0] == '/' then c
    else if p == [] || p[|p| - 1] == '/' then p + c
    else p + "/" + c
  }

  /** Index of the last `/`, or -1 when there is none. */
  function LastSeparator(p: Path): (k: int)
    ensures -1 <= k < |p|
    ensures k >= 0 ==> p[k] == '/'
    ensures forall i :: k < i < |p| ==> p[i] != '/'
  {
    if p == [] then -1 else if p[|p| - 1] == '/' then |p| - 1 else LastSeparator(p[..|p| - 1])
  }

  /** The directory a path names its entry in: the text before the last `/` (empty when there is none). */
  function Parent(p: Path): Path
  {
    var k := LastSeparator(p);
    if k < 0 then [] else p[..k]
  }

  /** The directories `create_dir_all(p)` makes sure of: `p` and each prefix of it that ends just before a `/`. */
  function DirChain(p: Path): set<Path>
  {
    set i | 0 < i <= |p| && (i == |p| || p[i] == '/') :: p[..i]
  }

  lemma {:induction false} LastSeparatorOfJoin(p: Path, c: string)
    requires c != [] && '/' !in c
    ensures LastSeparator(p + "/" + c) == |p|
    decreases |c|
  {
    var q := p + "/" + c;
    assert q[|q| - 1] == c[|c| - 1];
    if |c| > 1 {
      assert q[..|q| - 1] == p + "/" + c[..|c| - 1];
      LastSeparatorOfJoin(p, c[..|c| - 1]);
    } else {
      assert q[..|q| - 1] == p + "/";
    }
  }

  /** Joining a plain name onto a directory gives an entry whose parent is that directory. */
  lemma ParentOfJoin(p: Path, c: string)
    requires p != [] && p[|p| - 1] != '/'
    requires c != [] && '/' !in c
    ensures Parent(Join(p, c)) == p
  {
    LastSeparatorOfJoin(p, c);
    assert (p + "/" + c)[..|p|] == p;
  }

  lemma DirChainHasPath(p: Path)
    requires p != []
    ensures p in DirChain(p)
  {
    assert p[..|p|] == p;
  }
}
