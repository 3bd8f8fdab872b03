/** Character classes of JavaScript regular expressions (without the `u` flag) and the
    small vocabulary every matcher is built from: maximal runs of one class, literal
    occurrences and the `\b` word boundary. */
module Chars {

  /** `\w`: ASCII letters, digits and underscore. */
  predicate IsWord(c: char) {
    ('a' <= c <= 'z') || ('A' <= c <= 'Z') || ('0' <= c <= '9') || c == '_'
  }

  /** `\s`, which is also the set `String.prototype.trim` removes: the ECMAScript
      WhiteSpace and LineTerminator code points. */
  predicate IsSpace(c: char) {
    || c == ' '
    || ('\t' <= c <= '\r')   // tab, line feed, vertical tab, form feed, carriage return
    || c == '\U{00A0}' || c == '\U{1680}'
    || ('\U{2000}' <= c <= '\U{200A}')
    || c == '\U{2028}' || c == '\U{2029}'
    || c == '\U{202F}' || c == '\U{205F}' || c == '\U{3000}' || c == '\U{FEFF}'
  }

  /** The characters `.` refuses to match. */
  predicate IsLineTerminator(c: char) {
    c == '\n' || c == '\r' || c == '\U{2028}' || c == '\U{2029}'
  }

  predicate IsQuote(c: char) {
    c == '\'' || c == '"'
  }

  /** The single-character classes the patterns of the compiler use. */
  datatype CharClass =
    | Word                 // \w
    | Space                // \s
    | Dot                  // .
    | NotChar(c: char)     // [^c]
    | NotQuote             // [^'"]

  predicate In(k: CharClass, c: char) {
    match k
    case Word => IsWord(c)
    case Space => IsSpace(c)
    case Dot => !IsLineTerminator(c)
    case NotChar(x) => c != x
    case NotQuote => !IsQuote(c)
  }

  predicate AllIn(s: string, k: CharClass) {
    forall i :: 0 <= i < |s| ==> In(k, s[i])
  }

  lemma AllInSlice(s: string, i: nat, j: nat, k: CharClass)
    requires i <= j <= |s|
    requires forall t :: i <= t < j ==> In(k, s[t])
    ensures AllIn(s[i..j], k)
  {
    forall t | 0 <= t < j - i
      ensures In(k, s[i..j][t])
    {
      assert s[i..j][t] == s[i + t];
    }
  }

  /** The end of the longest run of class `k` starting at `i`: what a greedy `k*`
      consumes there. */
  function RunEnd(s: string, i: nat, k: CharClass): (j: nat)
    requires i <= |s|
    ensures i <= j <= |s|
    decreases |s| - i
  {
    if i < |s| && In(k, s[i]) then RunEnd(s, i + 1, k) else i
  }

  /** Every character of the run is in the class, and the one after it is not. */
  lemma {:induction false} RunEndSpec(s: string, i: nat, k: CharClass)
    requires i <= |s|
    ensures forall t :: i <= t < RunEnd(s, i, k) ==> In(k, s[t])
    ensures RunEnd(s, i, k) == |s| || !In(k, s[RunEnd(s, i, k)])
    decreases |s| - i
  {
    if i < |s| && In(k, s[i]) {
      RunEndSpec(s, i + 1, k);
    }
  }

  /** The run end is the only position with the two properties above. */
  lemma {:induction false} RunEndUnique(s: string, i: nat, j: nat, k: CharClass)
    requires i <= j <= |s|
    requires forall t :: i <= t < j ==> In(k, s[t])
    requires j == |s| || !In(k, s[j])
    ensures RunEnd(s, i, k) == j
    decreases j - i
  {
    if i < j {
      RunEndUnique(s, i + 1, j, k);
    }
  }

  /** A run of `mid` placed between `pre` and a `post` that does not continue it. */
  lemma RunEndOver(pre: string, mid: string, post: string, k: CharClass)
    requires AllIn(mid, k)
    requires post == [] || !In(k, post[0])
    ensures RunEnd(pre + mid + post, |pre|, k) == |pre| + |mid|
  {
    var s := pre + mid + post;
    forall t | |pre| <= t < |pre| + |mid|
      ensures In(k, s[t])
    {
      assert s[t] == mid[t - |pre|];
    }
    if post != [] {
      assert s[|pre| + |mid|] == post[0];
    }
    RunEndUnique(s, |pre|, |pre| + |mid|, k);
  }

  /** Prefixing text does not change where a run ends. */
  lemma {:induction false} RunEndShift(x: string, t: string, j: nat, k: CharClass)
    requires j <= |t|
    ensures RunEnd(x + t, |x| + j, k) == |x| + RunEnd(t, j, k)
    decreases |t| - j
  {
    var s := x + t;
    if j < |t| {
      assert s[|x| + j] == t[j];
      if In(k, t[j]) {
        RunEndShift(x, t, j + 1, k);
      }
    }
  }

  /** The literal `w` occurs at position `i` of `s`. */
  predicate HasAt(s: string, i: nat, w: string) {
    i + |w| <= |s| && s[i..i + |w|] == w
  }

  lemma HasAtShift(x: string, t: string, j: nat, w: string)
    ensures HasAt(x + t, |x| + j, w) <==> HasAt(t, j, w)
  {
    if j + |w| <= |t| {
      assert (x + t)[|x| + j..|x| + j + |w|] == t[j..j + |w|];
    }
  }

  /** An occurrence in a suffix is an occurrence in the whole text. */
  lemma HasAtSuffix(s: string, p: nat, j: nat, w: string)
    requires p <= |s|
    ensures HasAt(s[p..], j, w) ==> HasAt(s, p + j, w)
  {
    if HasAt(s[p..], j, w) {
      assert s[p..][j..j + |w|] == s[p + j..p + j + |w|];
    }
  }

  lemma HasAtOver(pre: string, w: string, post: string)
    ensures HasAt(pre + w + post, |pre|, w)
  {
    assert (pre + w + post)[|pre|..|pre| + |w|] == w;
  }

  /** `\b` at position `i`: exactly one of the characters around it is a word character. */
  predicate Boundary(s: string, i: nat) {
    (0 < i <= |s| && IsWord(s[i - 1])) != (i < |s| && IsWord(s[i]))
  }

  /** A literal holding a character that `t` lacks occurs nowhere in `t`. */
  lemma Lacks(t: string, w: string, j: nat)
    requires j < |w| && w[j] !in t
    ensures forall p :: 0 <= p < |t| ==> !HasAt(t, p, w)
  {
    forall p | 0 <= p < |t|
      ensures !HasAt(t, p, w)
    {
      if p + |w| <= |t| {
        assert t[p..p + |w|][j] == t[p + j];
        assert t[p + j] in t;
      }
    }
  }

  /** An occurrence in `a + b` lies in `a`, lies in `b`, or ends `a` with a proper
      prefix of the literal and starts `b` with the rest. The last is ruled out when
      `a` ends in a character found only at the literal's end, or `b` starts with one
      found only at its start. */
  lemma NoneAcross(a: string, b: string, w: string)
    requires |w| > 0
    requires forall p :: 0 <= p < |a| ==> !HasAt(a, p, w)
    requires forall p :: 0 <= p < |b| ==> !HasAt(b, p, w)
    requires a == [] || b == [] || a[|a| - 1] !in w[..|w| - 1] || b[0] !in w[1..]
    ensures forall p :: 0 <= p < |a + b| ==> !HasAt(a + b, p, w)
  {
    var s := a + b;
    forall p | 0 <= p < |s|
      ensures !HasAt(s, p, w)
    {
      if p + |w| <= |s| {
        if p + |w| <= |a| {
          assert !HasAt(a, p, w);
          assert s[p..p + |w|] == a[p..p + |w|];
        } else if p >= |a| {
          assert !HasAt(b, p - |a|, w);
          assert s[p..p + |w|] == b[p - |a|..p - |a| + |w|];
        } else {
          var k := |a| - 1 - p;
          var u := s[p..p + |w|];
          assert u[k] == a[|a| - 1] && u[k + 1] == b[0];
          if a[|a| - 1] !in w[..|w| - 1] {
            assert w[..|w| - 1][k] == w[k];
          } else {
            assert w[1..][k] == w[k + 1];
          }
        }
      }
    }
  }

  /** The three pieces of `a + b + c` and where they lie. */
  lemma HasAtPieces(a: string, b: string, c: string)
    ensures HasAt(a + b + c, 0, a) && HasAt(a + b + c, |a|, b) && HasAt(a + b + c, |a| + |b|, c)
  {
    var w := a + b + c;
    assert w[0..|a|] == a;
    assert w[|a|..|a| + |b|] == b;
    assert w[|a| + |b|..|a| + |b| + |c|] == c;
  }

  /** An occurrence stays where it is when text is appended. */
  lemma HasAtGrow(x: string, y: string, i: nat, w: string)
    requires HasAt(x, i, w)
    ensures HasAt(x + y, i, w)
  {
    assert (x + y)[i..i + |w|] == x[i..i + |w|];
  }

  /** An occurrence inside an occurrence. */
  lemma HasAtInner(s: string, i: nat, w: string, j: nat, v: string)
    requires HasAt(s, i, w) && HasAt(w, j, v)
    ensures HasAt(s, i + j, v)
  {
    forall t | 0 <= t < |v|
      ensures s[i + j + t] == v[t]
    {
      assert s[i + j + t] == s[i..i + |w|][j + t];
      assert v[t] == w[j..j + |v|][t];
    }
  }

  lemma FirstAt(s: string, i: nat, w: string)
    requires HasAt(s, i, w) && |w| > 0
    ensures s[i] == w[0]
  {
    assert s[i..i + |w|][0] == s[i];
  }

  /** A run of class `k` goes at least as far as a stretch of that class written at `i`. */
  lemma RunEndPast(s: string, i: nat, w: string, k: CharClass)
    requires HasAt(s, i, w) && AllIn(w, k)
    ensures i + |w| <= RunEnd(s, i, k)
  {
    RunEndSpec(s, i, k);
    forall t | i <= t < i + |w|
      ensures In(k, s[t])
    {
      assert s[t] == s[i..i + |w|][t - i];
    }
  }

  /** A run of class `k` written at `i` and not continued after it. */
  lemma RunEndAt(s: string, i: nat, w: string, k: CharClass)
    requires HasAt(s, i, w) && AllIn(w, k)
    requires i + |w| == |s| || !In(k, s[i + |w|])
    ensures RunEnd(s, i, k) == i + |w|
  {
    forall t | i <= t < i + |w|
      ensures In(k, s[t])
    {
      assert s[t] == s[i..i + |w|][t - i];
    }
    RunEndUnique(s, i, i + |w|, k);
  }

}
