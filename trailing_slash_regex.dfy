/**
 * `s.replace(/\/?$/, repl)`: a non-global regular expression replacement.
 * The search tries start positions 0, 1, ..., |s| in order and replaces only
 * the first match. Without the `m` flag, `$` holds only at the very end of
 * the input. The replacement strings used here contain no `$` patterns, so
 * they are inserted literally.
 */
module TrailingSlashRegex {
  import opened Wrappers
  import Strings

  /** A match of the pattern: the half-open index range [start, finish). */
  datatype Span = Span(start: nat, finish: nat)

  /** The assertion `$` (no multiline flag): index `k` is the end of input. */
  predicate AtEnd(s: string, k: nat)
  {
    k == |s|
  }

  /**
   * Matching `\/?$` from index `i`: the greedy `\/?` first consumes one `/`
   * if there is one, and `$` must then hold; on failure it backtracks to the
   * empty match, after which `$` must hold. Yields the end of the match.
   * The only places the pattern can match are a final `/` and the end of
   * input, and every match ends at the end of input.
   */
  function MatchAt(s: string, i: nat): (r: Option<nat>)
    requires i <= |s|
    ensures r.Some? <==> i == |s| || (i == |s| - 1 && s[i] == '/')
    ensures r.Some? ==> r.value == |s|
  {
    if i < |s| && s[i] == '/' && AtEnd(s, i + 1) then Some(i + 1)
    else if AtEnd(s, i) then Some(i)
    else None
  }

  /**
   * The search of a non-global `exec`: the first start position at or after
   * `from` where the pattern matches. Since `$` always holds at the end, a
   * match is always found.
   */
  function FirstMatch(s: string, from: nat): (r: Option<Span>)
    requires from <= |s|
    ensures r.Some?
    ensures r.Some? ==> from <= r.value.start <= r.value.finish <= |s|
    ensures r.Some? ==> MatchAt(s, r.value.start) == Some(r.value.finish)
    ensures r.Some? ==> forall j :: from <= j < r.value.start ==> MatchAt(s, j).None?
    decreases |s| - from
  {
    match MatchAt(s, from)
    case Some(e) => Some(Span(from, e))
    case None => if from == |s| then None else FirstMatch(s, from + 1)
  }

  /**
   * `s.replace(/\/?$/, repl)`: the first match is replaced by `repl`. The
   * effect is to drop one trailing `/` if there is one, then append `repl`;
   * a preceding `/` is never touched, because the match must end at the end
   * of input.
   */
  function Replace(s: string, repl: string): (r: string)
    ensures r == DropOneTrailingSlash(s) + repl
  {
    var m := FirstMatch(s, 0).value;
    assert m.start == |s| - 1 || m.start == |s|;
    assert |s| > 0 && s[|s| - 1] == '/' ==> m.start == |s| - 1 by {
      if |s| > 0 && s[|s| - 1] == '/' {
        assert MatchAt(s, |s| - 1).Some?;
      }
    }
    assert s[m.finish..] == [];
    s[..m.start] + repl + s[m.finish..]
  }

  /** The input with at most one trailing `/` removed. */
  function DropOneTrailingSlash(s: string): (r: string)
    ensures |r| == if Strings.EndsWith(s, "/") then |s| - 1 else |s|
    ensures r == s[..|r|]
  {
    if |s| > 0 && s[|s| - 1] == '/' then s[..|s| - 1] else s
  }
}
