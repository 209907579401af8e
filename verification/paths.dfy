/** Paths as text, and the one piece of path arithmetic the resolver needs:
    an absolute input is used as given, a relative one is placed under the
    root directory. Normalisation of `..`, `.`, repeated or trailing
    separators is not modelled. */
module Paths {

  /** A filesystem path; `/` separates its components. */
  type Path = string

  /** A path is absolute when it starts at the filesystem root. */
  predicate IsAbsolute(p: Path) {
    |p| > 0 && p[0] == '/'
  }

  /** `name` placed under `dir`: the directory, one separator, the name. */
  function Join(dir: Path, name: Path): (r: Path)
    ensures |r| == |dir| + 1 + |name|
    ensures r[..|dir|] == dir && r[|dir|] == '/' && r[|dir| + 1..] == name
    ensures IsAbsolute(dir) ==> IsAbsolute(r)
  {
    dir + "/" + name
  }

  /** The absolute form of `input`: unchanged when it is already absolute,
      otherwise resolved against `rootDir`. */
  function Resolve(input: Path, rootDir: Path): (r: Path)
    ensures IsAbsolute(input) ==> r == input
    ensures !IsAbsolute(input) ==> r == Join(rootDir, input)
    ensures IsAbsolute(rootDir) ==> IsAbsolute(r)
  {
    if IsAbsolute(input) then input else Join(rootDir, input)
  }

  /** Resolving is idempotent: the absolute form of an absolute form is itself. */
  lemma ResolveIdempotent(input: Path, rootDir: Path)
    requires IsAbsolute(rootDir)
    ensures Resolve(Resolve(input, rootDir), rootDir) == Resolve(input, rootDir)
  {
  }

  /** Two names under one directory give one path only when they are the same name. */
  lemma JoinInjective(dir: Path, name1: Path, name2: Path)
    ensures Join(dir, name1) == Join(dir, name2) <==> name1 == name2
  {
    if Join(dir, name1) == Join(dir, name2) {
      assert name1 == Join(dir, name1)[|dir| + 1..];
    }
  }

  /** Joining in two steps is joining the composed relative path. */
  lemma JoinAssociative(root: Path, sub: Path, name: Path)
    ensures Join(Join(root, sub), name) == Join(root, sub + "/" + name)
  {
    assert root + "/" + sub + "/" + name == root + "/" + (sub + "/" + name);
  }

  /** A path under `dir` is never `dir` itself. */
  lemma JoinDiffersFromDir(dir: Path, name: Path)
    ensures Join(dir, name) != dir
  {
  }
}
