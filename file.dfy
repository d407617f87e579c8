/**
 * Directory path helpers (src/file.c): `ensure_dir` makes a path end in `/`,
 * `strip_last_slash` drops one trailing `/`. Both read the last character, so
 * the path must not be empty.
 */
module File {
  /** The path ends in a slash. */
  predicate EndsInSlash(path: string)
    requires |path| > 0
  {
    path[|path| - 1] == '/'
  }

  /** `ensure_dir`: a copy of the path, with `/` appended unless it already ends in one. */
  function EnsureDir(path: string): (r: string)
    requires |path| > 0
    ensures |r| > 0 && EndsInSlash(r)
    ensures EndsInSlash(path) ==> r == path
    ensures !EndsInSlash(path) ==> r == path + "/"
  {
    if EndsInSlash(path) then path else path + "/"
  }

  /**
   * `strip_last_slash`, with the result it is meant to have: the path without
   * its trailing `/`, or the path itself when it has none.
   */
  function StripLastSlash(path: string): (r: string)
    requires |path| > 0
    ensures EndsInSlash(path) ==> r + "/" == path
    ensures !EndsInSlash(path) ==> r == path
  {
    if EndsInSlash(path) then path[..|path| - 1] else path
  }

  /** Making a directory path of a directory path changes nothing. */
  lemma EnsureDirIdempotent(path: string)
    requires |path| > 0
    ensures EnsureDir(EnsureDir(path)) == EnsureDir(path)
  {
  }

  /** A path without a trailing slash survives a slash added and stripped again. */
  lemma StripEnsured(path: string)
    requires |path| > 0 && !EndsInSlash(path)
    ensures StripLastSlash(EnsureDir(path)) == path
  {
    var d := path + "/";
    assert d[..|d| - 1] == path;
  }

  /** A directory path with one trailing slash survives that slash stripped and added again. */
  lemma EnsureStripped(path: string)
    requires |path| >= 2 && EndsInSlash(path) && path[|path| - 2] != '/'
    ensures EnsureDir(StripLastSlash(path)) == path
  {
    var s := path[..|path| - 1];
    assert s[|s| - 1] == path[|path| - 2];
    assert s + "/" == path;
  }
}
