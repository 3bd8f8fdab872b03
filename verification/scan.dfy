/** `String.prototype.replace` with a global regular expression and a replacer function,
    as a left-to-right scanner: at each position either the pattern matches there (the
    match is emitted as its replacement and scanning resumes after it) or one character
    is copied. Searching forward from `lastIndex` for the leftmost match visits the
    positions in exactly this order. A matcher is a `Rule`; each pass of the compiler
    supplies one. */
module Scan {
  import opened Wrappers

  type Pos = n: nat | n > 0 witness 1

  /** A match at some position: how many characters it spans (never zero: none of the
      compiler's patterns matches the empty string) and what replaces them. */
  datatype Hit = Hit(len: Pos, replacement: string)

  type Rule = (string, nat) -> Option<Hit>

  function ReplaceFrom(rule: Rule, s: string, i: nat): string
    decreases |s| - i
  {
    if i >= |s| then []
    else match rule(s, i)
      case Some(h) => h.replacement + ReplaceFrom(rule, s, i + h.len)
      case None => [s[i]] + ReplaceFrom(rule, s, i + 1)
  }

  function ReplaceAll(rule: Rule, s: string): string {
    ReplaceFrom(rule, s, 0)
  }

  /** A stretch without matches is copied through. */
  lemma {:induction false} Copied(rule: Rule, s: string, i: nat, j: nat)
    requires i <= j <= |s|
    requires forall p :: i <= p < j ==> rule(s, p).None?
    ensures ReplaceFrom(rule, s, i) == s[i..j] + ReplaceFrom(rule, s, j)
    decreases j - i
  {
    if i < j {
      assert rule(s, i).None?;
      assert ReplaceFrom(rule, s, i) == [s[i]] + ReplaceFrom(rule, s, i + 1);
      Copied(rule, s, i + 1, j);
      calc {
        ReplaceFrom(rule, s, i);
        [s[i]] + (s[i + 1..j] + ReplaceFrom(rule, s, j));
        ([s[i]] + s[i + 1..j]) + ReplaceFrom(rule, s, j);
        { assert [s[i]] + s[i + 1..j] == s[i..j]; }
        s[i..j] + ReplaceFrom(rule, s, j);
      }
    }
  }

  /** The pattern matches at no position of `s`. */
  predicate NoMatch(rule: Rule, s: string) {
    forall p :: 0 <= p < |s| ==> rule(s, p).None?
  }

  /** Where the pattern matches nowhere, the text comes back unchanged. */
  lemma Unchanged(rule: Rule, s: string)
    requires NoMatch(rule, s)
    ensures ReplaceAll(rule, s) == s
  {
    Copied(rule, s, 0, |s|);
  }

  /** A matcher that does not look behind its start position sees the same matches in a
      suffix as in the whole text, so scanning the suffix of `x + t` is scanning `t`. */
  lemma {:induction false} Shift(rule: Rule, x: string, t: string, j: nat)
    requires j <= |t|
    requires forall p :: j <= p <= |t| ==> rule(x + t, |x| + p) == rule(t, p)
    ensures ReplaceFrom(rule, x + t, |x| + j) == ReplaceFrom(rule, t, j)
    decreases |t| - j
  {
    if j < |t| {
      var s := x + t;
      var i := |x| + j;
      assert s[i] == t[j];
      var r := rule(t, j);
      assert rule(s, i) == r;
      if r.Some? {
        var n := j + r.value.len;
        if n <= |t| {
          Shift(rule, x, t, n);
        }
        assert ReplaceFrom(rule, s, i) == r.value.replacement + ReplaceFrom(rule, s, |x| + n);
        assert ReplaceFrom(rule, t, j) == r.value.replacement + ReplaceFrom(rule, t, n);
      } else {
        Shift(rule, x, t, j + 1);
        assert ReplaceFrom(rule, s, i) == [t[j]] + ReplaceFrom(rule, s, |x| + (j + 1));
        assert ReplaceFrom(rule, t, j) == [t[j]] + ReplaceFrom(rule, t, j + 1);
      }
    }
  }

  /** A text `x + src + rest` in which nothing matches inside `x` and the pattern
      matches exactly `src`: the output is `x`, the replacement of `src`, and the
      output for `rest`. The last two requirements say that the matcher does not look
      behind the position it starts at. */
  lemma Splice(rule: Rule, x: string, src: string, rest: string, r: string)
    requires |src| > 0
    requires forall p :: 0 <= p < |x| ==> rule(x + src + rest, p).None?
    requires rule(src + rest, 0) == Some(Hit(|src|, r))
    requires forall p :: 0 <= p <= |src + rest| ==> rule(x + (src + rest), |x| + p) == rule(src + rest, p)
    requires forall p :: 0 <= p <= |rest| ==> rule(src + rest, |src| + p) == rule(rest, p)
    ensures ReplaceAll(rule, x + src + rest) == x + r + ReplaceAll(rule, rest)
  {
    var s := x + src + rest;
    assert s == x + (src + rest);
    Copied(rule, s, 0, |x|);
    assert s[0..|x|] == x;
    Shift(rule, x, src + rest, 0);
    assert ReplaceFrom(rule, src + rest, 0) == r + ReplaceFrom(rule, src + rest, |src|);
    Shift(rule, src, rest, 0);
  }

  lemma Alone(u: string)
    ensures [] + u + [] == u
  {
  }

  lemma EmptyPrefix(u: string, v: string)
    ensures [] + u + v == u + v
  {
  }

}
