/**
 * The one string primitive the middleware relies on: `String.prototype.includes`,
 * which searches for the first index at which the search string occurs
 * (`StringIndexOf` starting at position 0) and reports whether one was found.
 * JavaScript strings are sequences of UTF-16 code units; here they are
 * `seq<char>`, whose elements are Unicode scalar values. The two agree on the
 * ASCII text this module is used on: the media type searched for and
 * percent-encoded URL paths.
 */
module Strings {
  import opened Wrappers

  /** `sub` occurs in `s` starting at index `i`. */
  ghost predicate OccursAt(s: string, sub: string, i: int)
  {
    0 <= i && i + |sub| <= |s| && s[i..i + |sub|] == sub
  }

  /** `sub` is a substring of `s`: the reference meaning of "includes". */
  ghost predicate Occurs(s: string, sub: string)
  {
    exists i :: OccursAt(s, sub, i)
  }

  /** `s` ends with `suffix`. */
  predicate EndsWith(s: string, suffix: string)
  {
    |suffix| <= |s| && s[|s| - |suffix|..] == suffix
  }

  /**
   * The scan behind `includes`: the least index at or after `from` at which
   * `sub` occurs, or None when there is none.
   */
  function IndexOf(s: string, sub: string, from: nat): (r: Option<nat>)
    ensures r.Some? ==> from <= r.value && OccursAt(s, sub, r.value)
    ensures r.Some? ==> forall j :: from <= j < r.value ==> !OccursAt(s, sub, j)
    ensures r.None? ==> forall j :: from <= j ==> !OccursAt(s, sub, j)
    decreases |s| - from
  {
    if from + |sub| > |s| then None
    else if s[from..from + |sub|] == sub then Some(from)
    else IndexOf(s, sub, from + 1)
  }

  /** `s.includes(sub)`: true exactly when `sub` occurs somewhere in `s`. */
  function Includes(s: string, sub: string): (b: bool)
    ensures b <==> Occurs(s, sub)
  {
    var r := IndexOf(s, sub, 0);
    assert r.Some? ==> OccursAt(s, sub, r.value);
    r.Some?
  }
}
