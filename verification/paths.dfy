/**
  The file-name step of `getLanguages`: `Paths.get(path).fileName.toString()`
  on the default Unix file system with a UTF-8 native encoding, where the
  only character `Paths.get` rejects is NUL. It collapses repeated slashes
  and drops trailing ones; the root path has no file name, and `.toString()`
  on that null throws.
 */
module Paths {
  import opened Outcomes
  import opened Text

  datatype PathError =
    | InvalidPath   // `Paths.get` throws InvalidPathException
    | NoFileName    // `fileName` is null, so `.toString()` throws

  /** True when `s` is made only of slashes. */
  predicate AllSlashes(s: string) {
    forall i :: 0 <= i < |s| ==> s[i] == '/'
  }

  /** `p` without its trailing slashes. */
  function StripTrailingSlashes(p: string): (r: string)
    ensures |r| <= |p| && r == p[..|r|]
    ensures r == [] || r[|r| - 1] != '/'
    ensures AllSlashes(p[|r|..])
  {
    if |p| > 0 && p[|p| - 1] == '/' then
      var r := StripTrailingSlashes(p[..|p| - 1]);
      assert p[|r|..] == p[..|p| - 1][|r|..] + ['/'];
      r
    else p
  }

  /** Stripping leaves nothing exactly when the path is all slashes. */
  lemma StrippedEmpty(p: string)
    ensures StripTrailingSlashes(p) == [] <==> AllSlashes(p)
  {
  }

  /**
    `name` is the last element of `path`: free of slashes and NUL, empty only
    for the empty path, and a suffix of the stripped path that is either all
    of it or preceded by a slash.
   */
  predicate IsLastElement(path: string, name: string) {
    var t := StripTrailingSlashes(path);
    '/' !in name && '\0' !in name && (name == [] <==> path == []) &&
    |name| <= |t| && name == t[|t| - |name|..] && (|name| == |t| || t[|t| - |name| - 1] == '/')
  }

  /** A character missing from a string is missing from each of its slices. */
  lemma NotInSlice(s: string, c: char, i: nat, j: nat)
    requires c !in s && i <= j <= |s|
    ensures c !in s[i..j]
  {
    forall k | 0 <= k < j - i ensures s[i..j][k] != c {
      assert s[i..j][k] == s[i + k];
    }
  }

  /** The text after the last slash of a stripped path is its last element. */
  lemma LastElement(p: string)
    requires '\0' !in p
    requires p == [] || StripTrailingSlashes(p) != []
    ensures var t := StripTrailingSlashes(p); IsLastElement(p, SubstringAfterLast(t, '/', t))
  {
    var t := StripTrailingSlashes(p);
    var r := SubstringAfterLast(t, '/', t);
    StrippedEmpty(p);
    NotInSlice(p, '\0', 0, |t|);
    assert '\0' !in t;
    if '/' in t {
      NotInSlice(t, '\0', |t| - |r|, |t|);
      assert r == t[|t| - |r|..];
    } else {
      assert r == t;
    }
    assert '\0' !in r;
  }

  /**
    The last name element of `path`: the text after the last slash once
    trailing slashes are removed. The empty path names the empty file.
   */
  function FileName(path: string): (r: Result<string, PathError>)
    ensures r == Err(InvalidPath) <==> '\0' in path
    ensures r == Err(NoFileName) <==> '\0' !in path && path != [] && AllSlashes(path)
    ensures r.Ok? ==> IsLastElement(path, r.value)
  {
    if '\0' in path then Err(InvalidPath)
    else
      var t := StripTrailingSlashes(path);
      StrippedEmpty(path);
      if path != [] && t == [] then Err(NoFileName)
      else LastElement(path); Ok(SubstringAfterLast(t, '/', t))
  }
}
