/** The two `os.path` operations the core relies on, with POSIX semantics. */
module Paths {

  const Sep: char := '/'

  /** Index of the last separator in `p`, or -1 when there is none (`p.rfind('/')`). */
  function LastSep(p: string): (r: int)
    ensures -1 <= r < |p|
    ensures 0 <= r ==> p[r] == Sep
    ensures forall j :: r < j < |p| ==> p[j] != Sep
  {
    if p == [] then -1
    else if p[|p| - 1] == Sep then |p| - 1
    else LastSep(p[..|p| - 1])
  }

  /** `os.path.basename(p)`: everything after the last separator, a suffix of `p` that
      holds no separator. */
  function Basename(p: string): (r: string)
    ensures Sep !in r
    ensures |r| <= |p| && p[|p| - |r|..] == r
  {
    p[LastSep(p) + 1..]
  }

  /** The base name is preceded by a separator unless it is all of `p`: it is the longest
      separator-free suffix. */
  lemma BasenameSpec(p: string)
    ensures var r := Basename(p);
      |r| < |p| ==> p[|p| - |r| - 1] == Sep
  {
  }

  /** The three properties of BasenameSpec determine the base name. */
  lemma BasenameUnique(p: string, r: string)
    requires Sep !in r
    requires |r| <= |p| && p[|p| - |r|..] == r
    requires |r| < |p| ==> p[|p| - |r| - 1] == Sep
    ensures Basename(p) == r
  {
    var q := Basename(p);
    BasenameSpec(p);
    SuffixFreeOfSep(p, q);
    SuffixFreeOfSep(p, r);
    assert |q| == |r|;
  }

  /** Every position of `p` covered by a separator-free suffix holds no separator. */
  lemma SuffixFreeOfSep(p: string, s: string)
    requires Sep !in s
    requires |s| <= |p| && p[|p| - |s|..] == s
    ensures forall k :: |p| - |s| <= k < |p| ==> p[k] != Sep
  {
    forall k | |p| - |s| <= k < |p|
      ensures p[k] != Sep
    {
      assert p[k] == s[k - (|p| - |s|)];
    }
  }

  /** A name without separators is its own base name. */
  lemma BasenameOfPlainName(p: string)
    requires Sep !in p
    ensures Basename(p) == p
  {
    BasenameUnique(p, p);
  }

  /** `os.path.join(dir, name)` with two components: an absolute `name` wins, otherwise a
      separator is inserted unless `dir` is empty or already ends with one. */
  function Join(dir: string, name: string): (r: string)
    ensures |name| <= |r| && r[|r| - |name|..] == name
  {
    if |name| > 0 && name[0] == Sep then name
    else if dir == [] || dir[|dir| - 1] == Sep then dir + name
    else dir + [Sep] + name
  }

  /** The joined path has `name` right after a separator unless it is `name` itself;
      `dir` is kept in front unless `name` is absolute. */
  lemma JoinSpec(dir: string, name: string)
    ensures var r := Join(dir, name);
      && (r == name || r[|r| - |name| - 1] == Sep)
      && (|name| == 0 || name[0] != Sep ==> r[..|dir|] == dir)
  {
  }

  /** A name that ends a path right after a separator (or is the whole path) has the
      same base name as the path. */
  lemma BasenameOfTail(r: string, name: string)
    requires |name| <= |r| && r[|r| - |name|..] == name
    requires r == name || r[|r| - |name| - 1] == Sep
    ensures Basename(r) == Basename(name)
  {
    var b := Basename(name);
    BasenameSpec(name);
    assert r[|r| - |b|..] == name[|name| - |b|..];
    if |b| < |name| {
      assert r[|r| - |b| - 1] == name[|name| - |b| - 1];
    }
    BasenameUnique(r, b);
  }

  /** Joining a directory in front of a name leaves its base name unchanged. */
  lemma BasenameOfJoin(dir: string, name: string)
    ensures Basename(Join(dir, name)) == Basename(name)
  {
    JoinSpec(dir, name);
    BasenameOfTail(Join(dir, name), name);
  }
}
