/** The JavaScript string methods the struct pass relies on: `split` on one character,
    `join`, `trim` and `endsWith`. */
module Strings {
  import opened Chars

  /** `parts.join(glue)`: the empty list joins to the empty string. */
  function Join(parts: seq<string>, glue: string): string {
    if |parts| == 0 then []
    else if |parts| == 1 then parts[0]
    else parts[0] + glue + Join(parts[1..], glue)
  }

  /** `s.split(sep)` for a one-character separator: the maximal separator-free
      segments, so that joining them with the separator gives `s` back. */
  function Split(s: string, sep: char): (parts: seq<string>)
    ensures |parts| >= 1
    ensures forall p <- parts :: sep !in p
    ensures Join(parts, [sep]) == s
    decreases |s|
  {
    var k := RunEnd(s, 0, NotChar(sep));
    RunEndSpec(s, 0, NotChar(sep));
    if k == |s| then [s]
    else
      assert s == s[..k] + [sep] + s[k + 1..];
      [s[..k]] + Split(s[k + 1..], sep)
  }

  /** Splitting is the inverse of joining separator-free parts. */
  lemma {:induction false} SplitJoin(parts: seq<string>, sep: char)
    requires |parts| >= 1
    requires forall p <- parts :: sep !in p
    ensures Split(Join(parts, [sep]), sep) == parts
    decreases |parts|
  {
    var s := Join(parts, [sep]);
    var p0 := parts[0];
    assert AllIn(p0, NotChar(sep)) by {
      forall t | 0 <= t < |p0|
        ensures In(NotChar(sep), p0[t])
      {
        assert p0[t] in p0;
      }
    }
    if |parts| == 1 {
      RunEndOver([], p0, [], NotChar(sep));
      assert [] + p0 + [] == s;
    } else {
      var tail := Join(parts[1..], [sep]);
      assert s == p0 + [sep] + tail;
      RunEndOver([], p0, [sep] + tail, NotChar(sep));
      assert [] + p0 + ([sep] + tail) == s;
      assert s[|p0| + 1..] == tail;
      assert s[..|p0|] == p0;
      SplitJoin(parts[1..], sep);
      assert parts == [p0] + parts[1..];
    }
  }

  /** The least `r` in `[a, e]` such that `s[r..e]` is all white space. */
  function TrailStart(s: string, a: nat, e: nat): (r: nat)
    requires a <= e <= |s|
    ensures a <= r <= e
    ensures forall t :: r <= t < e ==> IsSpace(s[t])
    ensures r == a || !IsSpace(s[r - 1])
    decreases e - a
  {
    if e > a && IsSpace(s[e - 1]) then TrailStart(s, a, e - 1) else e
  }

  /** The bounds of `s.trim()` inside `s`: white space before and after, none at the
      ends of what is kept. */
  function TrimBounds(s: string): (b: (nat, nat))
    ensures b.0 <= b.1 <= |s|
    ensures forall t :: 0 <= t < b.0 ==> IsSpace(s[t])
    ensures forall t :: b.1 <= t < |s| ==> IsSpace(s[t])
    ensures b.0 < b.1 ==> !IsSpace(s[b.0]) && !IsSpace(s[b.1 - 1])
  {
    var a := RunEnd(s, 0, Space);
    RunEndSpec(s, 0, Space);
    (a, TrailStart(s, a, |s|))
  }

  function Trim(s: string): string {
    var b := TrimBounds(s);
    s[b.0..b.1]
  }

  /** Text that neither starts nor ends with white space. */
  predicate Trimmed(t: string) {
    t == [] || (!IsSpace(t[0]) && !IsSpace(t[|t| - 1]))
  }

  /** Trimming keeps exactly the part between leading and trailing white space. */
  lemma TrimExact(lead: string, mid: string, trail: string)
    requires AllIn(lead, Space) && AllIn(trail, Space)
    requires Trimmed(mid)
    ensures Trim(lead + mid + trail) == mid
  {
    var s := lead + mid + trail;
    var b := TrimBounds(s);
    if mid == [] {
      assert AllIn(s, Space) by {
        forall t | 0 <= t < |s|
          ensures IsSpace(s[t])
        {
          if t < |lead| {
            assert s[t] == lead[t];
          } else {
            assert s[t] == trail[t - |lead|];
          }
        }
      }
      RunEndUnique(s, 0, |s|, Space);
    } else {
      assert s[|lead|] == mid[0];
      assert s[|lead| + |mid| - 1] == mid[|mid| - 1];
      RunEndOver([], lead, mid + trail, Space);
      assert [] + lead + (mid + trail) == s;
      assert b.0 == |lead|;
      assert forall t :: |lead| + |mid| <= t < |s| ==> s[t] == trail[t - |lead| - |mid|];
      assert s[|lead|..|lead| + |mid|] == mid;
    }
  }

  predicate EndsWith(s: string, suffix: string) {
    |suffix| <= |s| && s[|s| - |suffix|..] == suffix
  }

}
