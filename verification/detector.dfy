/** `containsBritescriptSyntax` (src/compiler.ts:78-88): whether any of the five marker
    patterns occurs in the code. The compiler transforms only code it accepts. */
module Detector {
  import opened Wrappers
  import opened Chars
  import opened Scan
  import opened Declarations
  import opened Bindings
  import opened Pipes

  /** `\bkw\s+\w+` at `p`, for `kw` one of `struct`, `trait` and `impl`. A `\s+` that
      stops early leaves white space where `\w` needs a word character, so only the
      longest run of white space can be followed by the name. */
  predicate KeywordMarkerAt(s: string, p: nat, kw: string) {
    && Boundary(s, p)
    && HasAt(s, p, kw)
    && var e := RunEnd(s, p + |kw|, Space);
       p + |kw| < e < |s| && IsWord(s[e])
  }

  /** `\blet\s+\w+\s*=` at `p`. Each run must be the longest one: a character its class
      could still take is not what the next part of the pattern accepts. */
  predicate LetMarkerAt(s: string, p: nat) {
    && Boundary(s, p)
    && HasAt(s, p, "let")
    && var a := RunEnd(s, p + 3, Space);
       var b := RunEnd(s, a, Word);
       var c := RunEnd(s, b, Space);
       p + 3 < a < b && c < |s| && s[c] == '='
  }

  /** One of the five patterns matches at `p`. */
  predicate MarkerAt(s: string, p: nat) {
    || KeywordMarkerAt(s, p, "struct")
    || KeywordMarkerAt(s, p, "trait")
    || KeywordMarkerAt(s, p, "impl")
    || LetMarkerAt(s, p)
    || HasAt(s, p, "|>")
  }

  /** The first position from `i` on where a marker starts. */
  function FirstMarker(s: string, i: nat): (r: Option<nat>)
    requires i <= |s|
    ensures r.Some? ==> i <= r.value < |s| && MarkerAt(s, r.value)
    ensures r.Some? ==> forall p :: i <= p < r.value ==> !MarkerAt(s, p)
    ensures r.None? ==> forall p :: i <= p < |s| ==> !MarkerAt(s, p)
    decreases |s| - i
  {
    if i == |s| then None
    else if MarkerAt(s, i) then Some(i)
    else FirstMarker(s, i + 1)
  }

  function ContainsBritescriptSyntax(code: string): (b: bool)
    ensures b <==> exists p :: 0 <= p < |code| && MarkerAt(code, p)
  {
    FirstMarker(code, 0).Some?
  }

  // ---------------------------------------------------------------------------
  // The detector and the passes.

  lemma NamedMarker(u: string, kw: string)
    requires MatchNamed(u, kw).Some?
    ensures var e := RunEnd(u, |kw|, Space); |kw| < e < |u| && IsWord(u[e])
  {
    var a := Keyword(u, 0, kw).value;
    RunEndSpec(u, a, Word);
  }

  lemma ImplMarker(u: string)
    requires MatchImpl(u).Some?
    ensures var e := RunEnd(u, 4, Space); 4 < e < |u| && IsWord(u[e])
  {
    var a := Keyword(u, 0, "impl").value;
    RunEndSpec(u, a, Word);
  }

  /** A keyword marker read in the text from `i` on is one in the whole text. */
  lemma MarkerInSuffix(s: string, i: nat, kw: string)
    requires i <= |s| && Boundary(s, i) && HasAt(s[i..], 0, kw)
    requires var e := RunEnd(s[i..], |kw|, Space); |kw| < e < |s[i..]| && IsWord(s[i..][e])
    ensures KeywordMarkerAt(s, i, kw)
  {
    HasAtSuffix(s, i, 0, kw);
    assert s == s[..i] + s[i..];
    RunEndShift(s[..i], s[i..], |kw|, Space);
  }

  /** Every pipe the pipe pass rewrites is a marker the detector finds. */
  lemma PipeDetected(s: string, i: nat)
    requires i <= |s| && PipeRule(s, i).Some?
    ensures ContainsBritescriptSyntax(s)
  {
    var u := s[i..];
    MatchHasArrow(u);
    var b :| 0 <= b < |u| && HasAt(u, b, "|>");
    HasAtSuffix(s, i, b, "|>");
    assert MarkerAt(s, i + b);
  }

  /** Every struct or trait declaration its pass rewrites where a word starts is a
      marker the detector finds. */
  lemma NamedDetected(s: string, i: nat)
    requires i <= |s| && Boundary(s, i)
    ensures StructRule(s, i).Some? ==> ContainsBritescriptSyntax(s)
    ensures TraitRule(s, i).Some? ==> ContainsBritescriptSyntax(s)
  {
    if StructRule(s, i).Some? {
      NamedMarker(s[i..], "struct");
      MarkerInSuffix(s, i, "struct");
      assert MarkerAt(s, i);
    }
    if TraitRule(s, i).Some? {
      NamedMarker(s[i..], "trait");
      MarkerInSuffix(s, i, "trait");
      assert MarkerAt(s, i);
    }
  }

  /** Every impl block its pass rewrites where a word starts is a marker the detector
      finds. */
  lemma ImplDetected(s: string, i: nat)
    requires i <= |s| && Boundary(s, i) && ImplRule(s, i).Some?
    ensures ContainsBritescriptSyntax(s)
  {
    ImplMarker(s[i..]);
    MarkerInSuffix(s, i, "impl");
    assert MarkerAt(s, i);
  }

  /** Code the detector rejects has no pipe the pipe pass would rewrite. */
  lemma QuietPipes(s: string)
    requires !ContainsBritescriptSyntax(s)
    ensures PipePass(s) == s
  {
    forall p | 0 <= p < |s|
      ensures !HasAt(s, p, "|>")
    {
      assert !MarkerAt(s, p);
    }
    NoArrowUnchanged(s);
  }

  /** The `let` pass needs only `let` and white space, the detector an assignment
      after a name: a declaration without an initialiser is left as it is, since the
      detector turns the whole transformation off. */
  lemma BareLetNotDetected()
    ensures !ContainsBritescriptSyntax("let x;")
    ensures LetPass("let x;") == "const x;"
  {
    var s := "let x;";
    assert RunEnd(s, 5, Space) == 5;
    assert RunEnd(s, 4, Word) == 5;
    assert RunEnd(s, 3, Space) == 4;
    forall p | 0 <= p < |s|
      ensures !MarkerAt(s, p)
    {
      assert !LetMarkerAt(s, p);
    }
    assert LetRule(s, 0) == Some(Hit(4, "const "));
  }

}
