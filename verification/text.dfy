/**
  The string operations the lookup relies on: Kotlin's `substringAfterLast`
  and `toLowerCase`.
 */
module Text {
  import opened Outcomes

  /** ASCII lower-casing of one character. */
  function LowerChar(c: char): char {
    if 'A' <= c <= 'Z' then (c as int - 'A' as int + 'a' as int) as char else c
  }

  /** `toLowerCase()`, restricted to the ASCII letters. */
  function Lower(s: string): (r: string)
    ensures |r| == |s|
    ensures forall i :: 0 <= i < |s| ==> r[i] == LowerChar(s[i])
    ensures forall i :: 0 <= i < |r| ==> !('A' <= r[i] <= 'Z')
  {
    seq(|s|, i requires 0 <= i < |s| => LowerChar(s[i]))
  }

  /** Lower-cases every element of a list (Kotlin's `map { it.toLowerCase() }`). */
  function LowerAll(xs: seq<string>): (r: seq<string>)
    ensures |r| == |xs|
    ensures forall i :: 0 <= i < |xs| ==> r[i] == Lower(xs[i])
  {
    seq(|xs|, i requires 0 <= i < |xs| => Lower(xs[i]))
  }

  /** Two strings are equal ignoring case exactly when their lower-cased forms are equal. */
  predicate EqualsIgnoreCase(a: string, b: string) {
    Lower(a) == Lower(b)
  }

  /** Position of the last occurrence of `c` in `s`, if any (Kotlin's `lastIndexOf`). */
  function LastIndexOf(s: string, c: char): (r: Option<nat>)
    ensures r.None? <==> c !in s
    ensures r.Some? ==> r.value < |s| && s[r.value] == c && c !in s[r.value + 1..]
  {
    if |s| == 0 then None
    else if s[|s| - 1] == c then Some(|s| - 1)
    else LastIndexOf(s[..|s| - 1], c)
  }

  /**
    Kotlin's `substringAfterLast(delimiter, missingDelimiterValue)`: the text
    after the last `c`, or `missing` when `s` has no `c`.
   */
  function SubstringAfterLast(s: string, c: char, missing: string): (r: string)
    ensures c !in s ==> r == missing
    ensures c in s ==> |r| < |s| && s[|s| - |r| - 1] == c && r == s[|s| - |r|..] && c !in r
  {
    match LastIndexOf(s, c)
    case None => missing
    case Some(i) => s[i + 1..]
  }

  /**
    The lookup key `getLanguages` derives from a file name: `"."` followed by
    the text after the last dot, and just `"."` when there is no dot.
   */
  function ExtensionOf(fileName: string): (ext: string)
    ensures |ext| >= 1 && ext[0] == '.'
    ensures '.' !in ext[1..]
    ensures '.' !in fileName ==> ext == "."
    ensures '.' in fileName ==> |ext| <= |fileName| && ext == fileName[|fileName| - |ext|..]
  {
    "." + SubstringAfterLast(fileName, '.', "")
  }
}
