/** The Kotlin standard-library string functions the app's file naming uses. */
module KotlinText {

  /** `s.startsWith(prefix)` */
  predicate StartsWith(s: string, prefix: string)
    ensures StartsWith(s, prefix) <==> |prefix| <= |s| && s == prefix + s[|prefix|..]
  {
    prefix <= s
  }

  /** `s.endsWith(suffix)` */
  predicate EndsWith(s: string, suffix: string)
    ensures EndsWith(s, suffix) <==> |suffix| <= |s| && s == s[..|s| - |suffix|] + suffix
  {
    |suffix| <= |s| && s[|s| - |suffix|..] == suffix
  }

  /** `s.removePrefix(prefix)`: the rest of `s` if it starts with `prefix`,
      otherwise `s` itself. */
  function RemovePrefix(s: string, prefix: string): (r: string)
    ensures StartsWith(s, prefix) ==> s == prefix + r
    ensures !StartsWith(s, prefix) ==> r == s
  {
    if StartsWith(s, prefix) then s[|prefix|..] else s
  }

  /** `s.removeSuffix(suffix)`: the front of `s` if it ends with `suffix`,
      otherwise `s` itself. */
  function RemoveSuffix(s: string, suffix: string): (r: string)
    ensures EndsWith(s, suffix) ==> s == r + suffix
    ensures !EndsWith(s, suffix) ==> r == s
  {
    if EndsWith(s, suffix) then s[..|s| - |suffix|] else s
  }

  /** `s.lastIndexOf(c)`: the position of the last `c`, or -1. */
  function LastIndexOf(s: string, c: char): (r: int)
    ensures -1 <= r < |s|
    ensures r >= 0 ==> s[r] == c
    ensures forall i :: r < i < |s| ==> s[i] != c
    decreases |s|
  {
    if |s| == 0 then -1
    else if s[|s| - 1] == c then |s| - 1
    else LastIndexOf(s[..|s| - 1], c)
  }

  /** `s.substringBeforeLast(delimiter)`: everything before the last
      delimiter, or all of `s` when there is none. */
  function SubstringBeforeLast(s: string, delimiter: char): (r: string)
    ensures delimiter !in s ==> r == s
    ensures delimiter in s ==> |r| < |s| && s[..|r|] == r && s[|r|] == delimiter && delimiter !in s[|r| + 1..]
  {
    var i := LastIndexOf(s, delimiter);
    if i < 0 then s else s[..i]
  }

  /** `s.substringAfterLast(delimiter, missing)`: everything after the last
      delimiter, or `missing` when there is none. */
  function SubstringAfterLast(s: string, delimiter: char, missing: string): (r: string)
    ensures delimiter !in s ==> r == missing
    ensures delimiter in s ==> delimiter !in r
  {
    var i := LastIndexOf(s, delimiter);
    if i < 0 then missing else s[i + 1..]
  }

  /** Splitting at the last delimiter and putting it back gives the original. */
  lemma SplitAtLast(s: string, delimiter: char)
    requires delimiter in s
    ensures SubstringBeforeLast(s, delimiter) + [delimiter] + SubstringAfterLast(s, delimiter, "") == s
  {
    var i := LastIndexOf(s, delimiter);
    assert s == s[..i] + [s[i]] + s[i + 1..];
  }
}
