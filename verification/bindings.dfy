/** The `let` pass of src/compiler.ts: `/\blet\s+/g` replaced by `const `. */
module Bindings {
  import opened Wrappers
  import opened Chars
  import opened Scan

  /** `\blet\s` matches at `i`. */
  predicate LetAt(s: string, i: nat) {
    Boundary(s, i) && HasAt(s, i, "let") && i + 3 < |s| && IsSpace(s[i + 3])
  }

  /** The match of `\blet\s+` at `i`, if any: the greedy `\s+` takes the whole run of
      white space after the keyword. */
  function LetRule(s: string, i: nat): (r: Option<Hit>)
    ensures r.Some? <==> LetAt(s, i)
    ensures r.Some? ==> var e := i + r.value.len;
      && e <= |s|
      && s[i..i + 3] == "let"
      && (forall t :: i + 3 <= t < e ==> IsSpace(s[t]))
      && e > i + 3
      && (e == |s| || !IsSpace(s[e]))
      && r.value.replacement == "const "
  {
    if LetAt(s, i) then
      RunEndSpec(s, i + 3, Space);
      Some(Hit(RunEnd(s, i + 3, Space) - i, "const "))
    else None
  }

  function LetPass(s: string): string {
    ReplaceAll(LetRule, s)
  }

  /** Whether the character before position `p` of `t` is a word character, where `w`
      says so for the character (if any) that precedes `t` itself. */
  predicate PrevWord(w: bool, t: string, p: nat)
    requires p <= |t|
  {
    if p == 0 then w else IsWord(t[p - 1])
  }

  /** `\blet\s` at `p` of `t`, read in the context `w`. */
  predicate LetIn(w: bool, t: string, p: nat)
    requires p <= |t|
  {
    !PrevWord(w, t, p) && HasAt(t, p, "let") && p + 3 < |t| && IsSpace(t[p + 3])
  }

  /** No `let` binding head is left anywhere in `t`. */
  predicate Clean(w: bool, t: string) {
    forall p :: 0 <= p < |t| ==> !LetIn(w, t, p)
  }

  lemma LetAtIsLetIn(s: string, p: nat)
    requires p <= |s|
    ensures LetAt(s, p) <==> LetIn(false, s, p)
  {
    if HasAt(s, p, "let") {
      assert s[p] == "let"[0];
    }
  }

  /** An output character other than the `c` of `const ` at the start of the scanner's
      output from `j` is `s[j]`, copied because no match starts at `j`. */
  lemma CopiedHead(s: string, j: nat, r: string)
    requires r == ReplaceFrom(LetRule, s, j)
    requires |r| > 0 && r[0] != 'c'
    ensures j < |s| && !LetAt(s, j) && r[0] == s[j]
    ensures r == [s[j]] + ReplaceFrom(LetRule, s, j + 1)
  {
  }

  /** Nothing the pass writes out can be matched by its own pattern: every `let`
      followed by white space that survives was not at a word boundary, and every
      `const ` ends in a space, which is exactly what the replaced run ended in. */
  lemma {:induction false} OutputClean(s: string, i: nat)
    requires i <= |s|
    ensures Clean(0 < i && IsWord(s[i - 1]), ReplaceFrom(LetRule, s, i))
    decreases |s| - i
  {
    if i < |s| {
      match LetRule(s, i)
      case Some(h) =>
        OutputClean(s, i + h.len);
        CleanAfterReplacement(s, i);
      case None =>
        OutputClean(s, i + 1);
        CleanAfterCopy(s, i);
    }
  }

  lemma CleanAfterReplacement(s: string, i: nat)
    requires i < |s| && LetAt(s, i)
    requires Clean(false, ReplaceFrom(LetRule, s, RunEnd(s, i + 3, Space)))
    ensures Clean(0 < i && IsWord(s[i - 1]), ReplaceFrom(LetRule, s, i))
  {
    var rest := ReplaceFrom(LetRule, s, RunEnd(s, i + 3, Space));
    assert ReplaceFrom(LetRule, s, i) == "const " + rest;
    ConstClean(0 < i && IsWord(s[i - 1]), rest);
  }

  /** `const ` holds no `let` and ends in white space, so it leaves a clean text clean. */
  lemma ConstClean(w: bool, rest: string)
    requires Clean(false, rest)
    ensures Clean(w, "const " + rest)
  {
    var t := "const " + rest;
    assert t[6..] == rest;
    forall p | 0 <= p < |t|
      ensures !LetIn(w, t, p)
    {
      if p < 6 {
        assert t[p] == "const "[p];
      } else {
        assert !LetIn(false, rest, p - 6);
        if HasAt(t, p, "let") {
          assert t[p..p + 3] == rest[p - 6..p - 3];
        }
      }
    }
  }

  lemma CleanAfterCopy(s: string, i: nat)
    requires i < |s| && !LetAt(s, i)
    requires Clean(IsWord(s[i]), ReplaceFrom(LetRule, s, i + 1))
    ensures Clean(0 < i && IsWord(s[i - 1]), ReplaceFrom(LetRule, s, i))
  {
    var w := 0 < i && IsWord(s[i - 1]);
    var rest := ReplaceFrom(LetRule, s, i + 1);
    var t := [s[i]] + rest;
    assert ReplaceFrom(LetRule, s, i) == t;
    forall p | 0 <= p < |t|
      ensures !LetIn(w, t, p)
    {
      if p == 0 {
        if LetIn(w, t, 0) {
          HeadIsLet(s, i, w, rest);
          assert false;
        }
      } else {
        assert !LetIn(IsWord(s[i]), rest, p - 1);
        if HasAt(t, p, "let") {
          assert t[p..p + 3] == rest[p - 1..p + 2];
        }
      }
    }
  }

  /** Output that contains no `c` was copied character by character. */
  lemma {:induction false} CopiedPrefix(s: string, j: nat, n: nat)
    requires j <= |s|
    requires n <= |ReplaceFrom(LetRule, s, j)|
    requires forall k :: 0 <= k < n ==> ReplaceFrom(LetRule, s, j)[k] != 'c'
    ensures j + n <= |s|
    ensures forall k :: 0 <= k < n ==> s[j + k] == ReplaceFrom(LetRule, s, j)[k]
    decreases n
  {
    if n > 0 {
      var r := ReplaceFrom(LetRule, s, j);
      CopiedHead(s, j, r);
      var r' := ReplaceFrom(LetRule, s, j + 1);
      assert r == [s[j]] + r';
      assert forall k :: 0 <= k < n - 1 ==> r'[k] == r[k + 1];
      CopiedPrefix(s, j + 1, n - 1);
      forall k | 0 <= k < n
        ensures s[j + k] == r[k]
      {
        if k > 0 {
          assert r[k] == r'[k - 1];
        }
      }
    }
  }

  /** A `let` head at the very start of the output from `i` would have to have been
      copied from a `let` head of the input at `i`. */
  lemma HeadIsLet(s: string, i: nat, w: bool, rest: string)
    requires i < |s| && w == (0 < i && IsWord(s[i - 1]))
    requires rest == ReplaceFrom(LetRule, s, i + 1)
    requires LetIn(w, [s[i]] + rest, 0)
    ensures LetAt(s, i)
  {
    var t := [s[i]] + rest;
    assert t[0..3] == "let";
    assert t[1..] == rest;
    assert t[0] == 'l' && rest[0] == 'e' && rest[1] == 't' && IsSpace(rest[2]);
    assert rest[2] != 'c';
    CopiedPrefix(s, i + 1, 3);
    assert s[i..i + 3] == "let";
  }

  /** Text without a `let` head is left alone. */
  lemma CleanUnchanged(t: string)
    requires Clean(false, t)
    ensures LetPass(t) == t
  {
    forall j | 0 <= j < |t|
      ensures LetRule(t, j).None?
    {
      LetAtIsLetIn(t, j);
    }
    Unchanged(LetRule, t);
  }

  /** The pass leaves no `let` binding head behind. */
  lemma NoLetAfterPass(s: string)
    ensures forall p :: 0 <= p <= |LetPass(s)| ==> !LetAt(LetPass(s), p)
  {
    var t := LetPass(s);
    OutputClean(s, 0);
    forall p | 0 <= p <= |t|
      ensures !LetAt(t, p)
    {
      LetAtIsLetIn(t, p);
    }
  }

  /** Running the pass twice is running it once. */
  lemma Idempotent(s: string)
    ensures LetPass(LetPass(s)) == LetPass(s)
  {
    OutputClean(s, 0);
    CleanUnchanged(LetPass(s));
  }

  /** The pass changes the text exactly when the text has a `let` binding head. */
  lemma FixedPoints(s: string)
    ensures LetPass(s) == s <==> forall p :: 0 <= p <= |s| ==> !LetAt(s, p)
  {
    if forall p :: 0 <= p <= |s| ==> !LetAt(s, p) {
      forall p | 0 <= p < |s|
        ensures !LetIn(false, s, p)
      {
        LetAtIsLetIn(s, p);
      }
      CleanUnchanged(s);
    }
    if LetPass(s) == s {
      NoLetAfterPass(s);
    }
  }

  // ---------------------------------------------------------------------------
  // What the pass writes.

  /** The match at a position does not depend on text in front of it, except through
      the word boundary, which only the character just before the position decides. */
  lemma LetRuleShift(x: string, t: string, p: nat)
    requires p <= |t|
    requires p > 0 || x == [] || !IsWord(x[|x| - 1])
    ensures LetRule(x + t, |x| + p) == LetRule(t, p)
  {
    var s := x + t;
    var i := |x| + p;
    HasAtShift(x, t, p, "let");
    if p > 0 {
      assert s[i - 1] == t[p - 1];
    }
    if p < |t| {
      assert s[i] == t[p];
    }
    assert Boundary(s, i) == Boundary(t, p);
    if p + 3 < |t| {
      assert s[i + 3] == t[p + 3];
    }
    assert LetAt(s, i) == LetAt(t, p);
    if LetAt(t, p) {
      RunEndShift(x, t, p + 3, Space);
    }
  }

  /** A `let` head inside text that ends in a non-word character lies wholly inside
      it: the three letters cannot reach past that last character. */
  lemma LetInside(x: string, u: string, p: nat)
    requires p < |x| && !IsWord(x[|x| - 1])
    requires LetAt(x + u, p)
    ensures LetAt(x, p)
  {
    var s := x + u;
    assert s[p..p + 3] == "let";
    assert IsWord(s[p]) && IsWord(s[p + 1]) && IsWord(s[p + 2]);
    assert s[|x| - 1] == x[|x| - 1];
    assert p + 3 < |x|;
    assert x[p..p + 3] == s[p..p + 3];
    assert x[p + 3] == s[p + 3];
    if p > 0 {
      assert x[p - 1] == s[p - 1];
    }
  }

  /** The pass copies text without a `let` head, writes `const ` for the keyword and
      the whole run of white space after it, and carries on after that run. */
  lemma LetPassSplice(x: string, ws: string, rest: string)
    requires forall p :: 0 <= p < |x| ==> !LetAt(x, p)
    requires x == [] || !IsWord(x[|x| - 1])
    requires |ws| > 0 && AllIn(ws, Space)
    requires rest == [] || !IsSpace(rest[0])
    ensures LetPass(x + "let" + ws + rest) == x + "const " + LetPass(rest)
  {
    var src := "let" + ws;
    assert x + "let" + ws + rest == x + src + rest;
    forall p | 0 <= p < |x|
      ensures LetRule(x + src + rest, p).None?
    {
      if LetAt(x + src + rest, p) {
        assert x + src + rest == x + (src + rest);
        LetInside(x, src + rest, p);
      }
    }
    var u := src + rest;
    assert u[0..3] == "let" && u[3] == ws[0];
    assert "let" + ws + rest == u;
    RunEndOver("let", ws, rest, Space);
    assert LetRule(u, 0) == Some(Hit(|src|, "const "));
    forall p | 0 <= p <= |u|
      ensures LetRule(x + u, |x| + p) == LetRule(u, p)
    {
      LetRuleShift(x, u, p);
    }
    assert src[|src| - 1] == ws[|ws| - 1];
    assert !IsWord(src[|src| - 1]) by {
      assert IsSpace(ws[|ws| - 1]);
    }
    forall p | 0 <= p <= |rest|
      ensures LetRule(src + rest, |src| + p) == LetRule(rest, p)
    {
      LetRuleShift(src, rest, p);
    }
    Splice(LetRule, x, src, rest, "const ");
  }

  /** The two declarations of the compiler's `let` test become `const` declarations and
      everything else stays in place. */
  lemma TestBindings(a: string, b: string)
    requires forall p :: 0 <= p < |a| ==> !LetAt(a, p)
    requires forall p :: 0 <= p < |b| ==> !LetAt(b, p)
    requires a != [] && !IsSpace(a[0]) && a[|a| - 1] == ';'
    requires b == [] || !IsSpace(b[0])
    ensures LetPass("let " + a + "\nlet " + b) == "const " + a + "\nconst " + b
  {
    assert AllIn(" ", Space);
    var x := a + "\n";
    forall p | 0 <= p < |x|
      ensures !LetAt(x, p)
    {
      if p < |a| && LetAt(x, p) {
        LetInside(a, "\n", p);
      }
    }
    LetPassSplice(x, " ", b);
    FixedPoints(b);
    assert LetPass(x + "let" + " " + b) == x + "const " + b;
    LetPassSplice([], " ", x + "let" + " " + b);
    assert [] + "let" + " " + (x + "let" + " " + b) == "let " + a + "\nlet " + b;
    assert [] + "const " + (x + "const " + b) == "const " + a + "\nconst " + b;
  }

  /** Text in which the only `l` is followed by something other than `e` has no `let`
      head. */
  lemma LetFree(a: string, b: string)
    requires 'l' !in a && 'l' !in b && (b == [] || b[0] != 'e')
    ensures forall p :: 0 <= p < |a + "l" + b| ==> !LetAt(a + "l" + b, p)
  {
    var t := a + "l" + b;
    forall p | 0 <= p < |t|
      ensures !HasAt(t, p, "let")
    {
      if p + 3 <= |t| {
        assert t[p..p + 3][0] == t[p] && t[p..p + 3][1] == t[p + 1];
        if p < |a| {
          assert t[p] == a[p];
          assert a[p] in a;
        } else if p > |a| {
          assert t[p] == b[p - |a| - 1];
          assert b[p - |a| - 1] in b;
        } else {
          assert t[p + 1] == b[0];
        }
      }
    }
  }

  /** Text without an `l` has no `let` head. */
  lemma WithoutL(t: string)
    requires 'l' !in t
    ensures forall p :: 0 <= p < |t| ==> !LetAt(t, p)
  {
    forall p | 0 <= p < |t| && LetAt(t, p)
      ensures false
    {
      FirstAt(t, p, "let");
    }
  }

  /** The compiler's `let` test: both declarations become `const` declarations. */
  lemma TestLetLines()
    ensures LetPass("let " + "userName = \"Alice\";" + "\nlet " + "userAge = 25;")
         == "const " + "userName = \"Alice\";" + "\nconst " + "userAge = 25;"
  {
    var a1, a2 := "userName = \"A", "ice\";";
    var b := "userAge = 25;";
    LetFree(a1, a2);
    WithoutL(b);
    TestBindings(a1 + "l" + a2, b);
    assert a1 + "l" + a2 == "userName = \"Alice\";";
  }

}
