/**
 * The string matching the list routes rely on. A filter such as
 * `new RegExp(q, "i")` is modelled as a case-insensitive substring test.
 */
module Text {
  import opened Common

  function LowerChar(c: char): char
  {
    if 'A' <= c <= 'Z' then (c as int - 'A' as int + 'a' as int) as char else c
  }

  function Lower(s: string): string
  {
    seq(|s|, i requires 0 <= i < |s| => LowerChar(s[i]))
  }

  predicate StartsWith(s: string, prefix: string)
  {
    |prefix| <= |s| && s[..|prefix|] == prefix
  }

  /** Scans `s` from the left for an occurrence of `t`. */
  function Contains(s: string, t: string): bool
    decreases |s|
  {
    StartsWith(s, t) || (s != [] && Contains(s[1..], t))
  }

  /** `t` occurs in `s` at some position `i`. */
  ghost predicate IsInfix(s: string, t: string)
  {
    exists i :: 0 <= i <= |s| && StartsWith(s[i..], t)
  }

  /** The scan finds `t` exactly when `t` occurs somewhere in `s`. */
  lemma {:induction false} ContainsIsInfix(s: string, t: string)
    ensures Contains(s, t) <==> IsInfix(s, t)
    decreases |s|
  {
    if s != [] {
      ContainsIsInfix(s[1..], t);
    }
    if Contains(s, t) {
      if StartsWith(s, t) {
        assert s[0..] == s;
      } else {
        var i :| 0 <= i <= |s[1..]| && StartsWith(s[1..][i..], t);
        assert s[1..][i..] == s[i + 1..];
      }
    }
    if IsInfix(s, t) {
      var i :| 0 <= i <= |s| && StartsWith(s[i..], t);
      if i == 0 {
        assert s[0..] == s;
      } else {
        assert s[1..][i - 1..] == s[i..];
      }
    }
  }

  /** The case-insensitive match of a user-supplied filter against a stored value. */
  predicate MatchesIgnoringCase(value: string, pattern: string): (r: bool)
    ensures r <==> IsInfix(Lower(value), Lower(pattern))
  {
    ContainsIsInfix(Lower(value), Lower(pattern));
    Contains(Lower(value), Lower(pattern))
  }

  /** The position of the first `c` in `s`. */
  function IndexOf(s: string, c: char): (r: Option<nat>)
    ensures r.None? <==> c !in s
    ensures r.Some? ==> r.value < |s| && s[r.value] == c && c !in s[..r.value]
  {
    if s == [] then None
    else if s[0] == c then Some(0)
    else match IndexOf(s[1..], c)
      case None => None
      case Some(i) => Some(i + 1)
  }
}
