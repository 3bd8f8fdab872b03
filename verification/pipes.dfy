/** The pipe pass of src/compiler.ts:143-168: the global pattern
    `(\w+(?:\([^)]*\))?)\s*\|>\s*(\w+)(?:\s*\|>\s*(\w+(?:\([^)]*\))?))?`
    with a replacer that nests the stages as calls.

    At any start position the pattern needs no real backtracking: every repetition
    is followed by a character its own class cannot contain, so each run is maximal,
    and an argument list is taken exactly when a `(` follows the name and a `)`
    occurs somewhere after it. */
module Pipes {
  import opened Wrappers
  import opened Chars
  import opened Scan

  /** `(?:\([^)]*\))?` at `a`: the end of the argument list if one starts there. */
  function ArgsEnd(s: string, a: nat): (e: nat)
    requires a <= |s|
    ensures a <= e <= |s|
    ensures e > a ==> s[a] == '(' && s[e - 1] == ')' && AllIn(s[a + 1..e - 1], NotChar(')'))
  {
    if a < |s| && s[a] == '(' then
      var k := RunEnd(s, a + 1, NotChar(')'));
      RunEndSpec(s, a + 1, NotChar(')'));
      AllInSlice(s, a + 1, k, NotChar(')'));
      if k < |s| then k + 1 else a
    else a
  }

  /** `\w+(?:\([^)]*\))?` at `i`: a callee, when the word is non-empty. */
  function CallEnd(s: string, i: nat): nat
    requires i <= |s|
  {
    ArgsEnd(s, RunEnd(s, i, Word))
  }

  /** `\s*\|>\s*` at `i`: where the next stage starts. */
  function Arrow(s: string, i: nat): (r: Option<nat>)
    requires i <= |s|
    ensures r.Some? ==> i + 2 <= r.value <= |s|
  {
    var b := RunEnd(s, i, Space);
    if HasAt(s, b, "|>") then Some(RunEnd(s, b + 2, Space)) else None
  }

  /** The optional second stage after the first function, which ends at `d`: the
      position the callee starts at and the end of the callee. */
  function Second(s: string, d: nat): (r: Option<(nat, nat)>)
    requires d <= |s|
    ensures r.Some? ==> d + 2 <= r.value.0 < r.value.1 <= |s|
  {
    match Arrow(s, d)
    case None => None
    case Some(f) =>
      if RunEnd(s, f, Word) > f then Some((f, CallEnd(s, f))) else None
  }

  /** The three captures and the length of a match. */
  datatype PipeMatch = PipeMatch(initial: string, func1: string, func2: Option<string>, len: nat)

  /** The match of the pipe pattern at the start of `s`, if any. */
  function MatchPipe(s: string): (m: Option<PipeMatch>)
    ensures m.Some? ==>
      && 0 < m.value.len <= |s|
      && |m.value.initial| > 0 && HasAt(s, 0, m.value.initial)
      && |m.value.func1| > 0 && AllIn(m.value.func1, Word)
      && (m.value.func2.Some? ==> |m.value.func2.value| > 0 && IsWord(m.value.func2.value[0]))
  {
    var a := RunEnd(s, 0, Word);
    if a == 0 then None
    else
      var ie := ArgsEnd(s, a);
      match Arrow(s, ie)
      case None => None
      case Some(c) =>
        var d := RunEnd(s, c, Word);
        if d == c then None
        else
          RunEndSpec(s, c, Word);
          AllInSlice(s, c, d, Word);
          match Second(s, d)
          case None => Some(PipeMatch(s[..ie], s[c..d], None, d))
          case Some(fh) =>
            RunEndSpec(s, fh.0, Word);
            Some(PipeMatch(s[..ie], s[c..d], Some(s[fh.0..fh.1]), fh.1))
  }

  /** src/compiler.ts:151-165 with the `func1.includes('(')` branches left out: the
      first function is a word, so they are never taken. */
  function Render(m: PipeMatch): string {
    match m.func2
    case Some(g) => g + "(" + m.func1 + "(" + m.initial + "))"
    case None => m.func1 + "(" + m.initial + ")"
  }

  function PipeRule(s: string, i: nat): Option<Hit> {
    if i > |s| then None
    else match MatchPipe(s[i..])
      case None => None
      case Some(m) => Some(Hit(m.len, Render(m)))
  }

  function PipePass(s: string): string {
    ReplaceAll(PipeRule, s)
  }

  /** The first function of a match never holds a `(`. */
  lemma Func1HasNoParen(s: string)
    requires MatchPipe(s).Some?
    ensures '(' !in MatchPipe(s).value.func1
  {
    var f := MatchPipe(s).value.func1;
    assert forall k :: 0 <= k < |f| ==> IsWord(f[k]);
  }

  // ---------------------------------------------------------------------------
  // Written-out pipelines and how they are read back.

  /** A callee: a name and perhaps an argument list. */
  datatype Call = Call(name: string, args: Option<string>)

  predicate ValidCall(c: Call) {
    |c.name| > 0 && AllIn(c.name, Word) && (c.args.Some? ==> AllIn(c.args.value, NotChar(')')))
  }

  function CallText(c: Call): string {
    match c.args
    case None => c.name
    case Some(a) => c.name + "(" + a + ")"
  }

  /** The character `next` may follow a callee without lengthening it. */
  predicate Ends(c: Call, next: string) {
    next == [] || (!IsWord(next[0]) && (c.args.None? ==> next[0] != '('))
  }

  /** Nothing at `e` continues a callee `c` that ends there. */
  predicate CallEnds(s: string, e: nat, c: Call) {
    e >= |s| || (!IsWord(s[e]) && (c.args.None? ==> s[e] != '('))
  }

  /** `\s*\|>\s*` written out. */
  function ArrowText(ws1: string, ws2: string): string {
    ws1 + "|>" + ws2
  }

  /** No white space continues a run that reaches `e`. */
  predicate SpaceEnds(s: string, e: nat) {
    e >= |s| || !IsSpace(s[e])
  }

  lemma ArrowTextLen(ws1: string, ws2: string)
    ensures |ArrowText(ws1, ws2)| == |ws1| + 2 + |ws2|
  {
  }

  predicate ValidArrow(ws1: string, ws2: string) {
    AllIn(ws1, Space) && AllIn(ws2, Space)
  }

  lemma CallTextLen(c: Call)
    ensures |CallText(c)| == |c.name| + (if c.args.Some? then |c.args.value| + 2 else 0)
  {
  }

  /** The pieces of a callee written at `i`. */
  lemma CallPieces(s: string, i: nat, c: Call)
    requires HasAt(s, i, CallText(c))
    ensures HasAt(s, i, c.name)
    ensures c.args.Some? ==> HasAt(s, i + |c.name|, "(" + c.args.value + ")")
  {
    var w := CallText(c);
    assert HasAt(w, 0, c.name) by {
      assert w[0..|c.name|] == c.name;
    }
    HasAtInner(s, i, w, 0, c.name);
    if c.args.Some? {
      var p := "(" + c.args.value + ")";
      assert HasAt(w, |c.name|, p) by {
        assert w[|c.name|..|c.name| + |p|] == p;
      }
      HasAtInner(s, i, w, |c.name|, p);
    }
  }

  /** A callee written at `i` and not continued is read back whole. */
  lemma CallAt(s: string, i: nat, c: Call)
    requires ValidCall(c) && HasAt(s, i, CallText(c))
    requires CallEnds(s, i + |CallText(c)|, c)
    ensures RunEnd(s, i, Word) == i + |c.name|
    ensures CallEnd(s, i) == i + |CallText(c)|
  {
    CallPieces(s, i, c);
    match c.args
    case None =>
      RunEndAt(s, i, c.name, Word);
    case Some(a) =>
      var n := i + |c.name|;
      FirstAt(s, n, "(" + a + ")");
      RunEndAt(s, i, c.name, Word);
      ArgsAt(s, n, a);
  }

  /** An argument list written at `n`. */
  lemma ArgsAt(s: string, n: nat, a: string)
    requires HasAt(s, n, "(" + a + ")") && AllIn(a, NotChar(')'))
    ensures ArgsEnd(s, n) == n + |a| + 2
  {
    var p := "(" + a + ")";
    FirstAt(s, n, p);
    assert HasAt(p, 1, a) by {
      assert p[1..1 + |a|] == a;
    }
    HasAtInner(s, n, p, 1, a);
    assert s[n + 1 + |a|] == ')' by {
      assert s[n..n + |p|][1 + |a|] == p[1 + |a|];
    }
    RunEndAt(s, n + 1, a, NotChar(')'));
  }

  lemma ArrowPieces(ws1: string, ws2: string)
    ensures var w := ArrowText(ws1, ws2);
      HasAt(w, 0, ws1) && HasAt(w, |ws1|, "|>") && HasAt(w, |ws1| + 2, ws2)
  {
    var w := ArrowText(ws1, ws2);
    assert w[0..|ws1|] == ws1;
    assert w[|ws1|..|ws1| + 2] == "|>";
    assert w[|ws1| + 2..|ws1| + 2 + |ws2|] == ws2;
  }

  /** An arrow written at `i` and followed by something other than white space. */
  lemma ArrowAt(s: string, i: nat, ws1: string, ws2: string)
    requires ValidArrow(ws1, ws2) && HasAt(s, i, ArrowText(ws1, ws2))
    requires SpaceEnds(s, i + |ArrowText(ws1, ws2)|)
    ensures Arrow(s, i) == Some(i + |ArrowText(ws1, ws2)|)
  {
    ArrowTextLen(ws1, ws2);
    ArrowLift(s, i, ws1, ws2);
    ArrowPiecesAt(s, i, ws1, ws2);
  }

  lemma ArrowLift(s: string, i: nat, ws1: string, ws2: string)
    requires HasAt(s, i, ArrowText(ws1, ws2))
    ensures HasAt(s, i, ws1) && HasAt(s, i + |ws1|, "|>") && HasAt(s, i + |ws1| + 2, ws2)
  {
    var w := ArrowText(ws1, ws2);
    ArrowPieces(ws1, ws2);
    HasAtInner(s, i, w, 0, ws1);
    HasAtInner(s, i, w, |ws1|, "|>");
    HasAtInner(s, i, w, |ws1| + 2, ws2);
  }

  lemma ArrowPiecesAt(s: string, i: nat, ws1: string, ws2: string)
    requires ValidArrow(ws1, ws2)
    requires HasAt(s, i, ws1) && HasAt(s, i + |ws1|, "|>") && HasAt(s, i + |ws1| + 2, ws2)
    requires SpaceEnds(s, i + |ws1| + 2 + |ws2|)
    ensures Arrow(s, i) == Some(i + |ws1| + 2 + |ws2|)
  {
    FirstAt(s, i + |ws1|, "|>");
    RunEndAt(s, i, ws1, Space);
    RunEndAt(s, i + |ws1| + 2, ws2, Space);
    ArrowFrom(s, i, i + |ws1|, i + |ws1| + 2 + |ws2|);
  }

  lemma ArrowFrom(s: string, i: nat, b: nat, e: nat)
    requires i <= |s| && RunEnd(s, i, Space) == b && HasAt(s, b, "|>") && RunEnd(s, b + 2, Space) == e
    ensures Arrow(s, i) == Some(e)
  {
  }

  /** The second stage is absent when what follows the first function is neither a
      word character nor white space leading to `|>`. */
  lemma NoSecond(s: string, d: nat)
    requires d <= |s|
    requires !HasAt(s, RunEnd(s, d, Space), "|>")
    ensures Second(s, d).None?
  {
  }

  /** A match assembled from its parts. */
  lemma OneFrom(s: string, ie: nat, c: nat, d: nat)
    requires 0 < RunEnd(s, 0, Word) && CallEnd(s, 0) == ie
    requires Arrow(s, ie) == Some(c) && c < d && RunEnd(s, c, Word) == d && Second(s, d).None?
    ensures MatchPipe(s) == Some(PipeMatch(s[..ie], s[c..d], None, d))
  {
  }

  lemma TwoFrom(s: string, ie: nat, c: nat, d: nat, f: nat, h: nat)
    requires 0 < RunEnd(s, 0, Word) && CallEnd(s, 0) == ie
    requires Arrow(s, ie) == Some(c) && c < d && RunEnd(s, c, Word) == d
    requires Arrow(s, d) == Some(f) && f < RunEnd(s, f, Word) && CallEnd(s, f) == h
    ensures MatchPipe(s) == Some(PipeMatch(s[..ie], s[c..d], Some(s[f..h]), h))
  {
  }

  /** `a |> f` written from the start of `s`. */
  function OneText(init: Call, ws1: string, ws2: string, f: string): string {
    CallText(init) + ArrowText(ws1, ws2) + f
  }

  function TwoText(init: Call, ws1: string, ws2: string, f: string, ws3: string, ws4: string, g: Call): string {
    OneText(init, ws1, ws2, f) + ArrowText(ws3, ws4) + CallText(g)
  }

  lemma OnePieces(init: Call, ws1: string, ws2: string, f: string, rest: string)
    ensures var s := OneText(init, ws1, ws2, f) + rest; var n := |CallText(init)|;
      && HasAt(s, 0, CallText(init)) && HasAt(s, n, ArrowText(ws1, ws2))
      && HasAt(s, n + |ArrowText(ws1, ws2)|, f)
      && |OneText(init, ws1, ws2, f)| == n + |ArrowText(ws1, ws2)| + |f|
      && s[|OneText(init, ws1, ws2, f)|..] == rest
  {
    var p1 := CallText(init);
    var p2 := p1 + ArrowText(ws1, ws2);
    var p3 := p2 + f;
    assert HasAt(p3 + rest, 0, p1) by {
      HasAtOver([], p1, []);
      assert [] + p1 == p1;
      HasAtGrow(p1, ArrowText(ws1, ws2), 0, p1);
      HasAtGrow(p2, f, 0, p1);
      HasAtGrow(p3, rest, 0, p1);
    }
    assert HasAt(p3 + rest, |p1|, ArrowText(ws1, ws2)) by {
      HasAtOver(p1, ArrowText(ws1, ws2), []);
      HasAtGrow(p2, f, |p1|, ArrowText(ws1, ws2));
      HasAtGrow(p3, rest, |p1|, ArrowText(ws1, ws2));
    }
    assert HasAt(p3 + rest, |p2|, f) by {
      HasAtOver(p2, f, []);
      HasAtGrow(p3, rest, |p2|, f);
    }
    assert (p3 + rest)[|p3|..] == rest;
  }

  /** The pieces of `a |> f` inside any `s`, read back. */
  lemma OneAt(s: string, init: Call, ws1: string, ws2: string, f: string)
    requires ValidCall(init) && ValidArrow(ws1, ws2) && |f| > 0 && AllIn(f, Word)
    requires var n := |CallText(init)|;
      && HasAt(s, 0, CallText(init)) && HasAt(s, n, ArrowText(ws1, ws2))
      && HasAt(s, n + |ArrowText(ws1, ws2)|, f)
    ensures var n := |CallText(init)|; var c := n + |ArrowText(ws1, ws2)|;
      && RunEnd(s, 0, Word) == |init.name| && CallEnd(s, 0) == n
      && Arrow(s, n) == Some(c)
  {
    var n := |CallText(init)|;
    var c := n + |ArrowText(ws1, ws2)|;
    FirstAt(s, n, ArrowText(ws1, ws2));
    assert ArrowText(ws1, ws2)[|ws1|] == '|';
    if ws1 != [] {
      assert ArrowText(ws1, ws2)[0] == ws1[0];
    }
    CallAt(s, 0, init);
    FirstAt(s, c, f);
    ArrowAt(s, n, ws1, ws2);
  }

  /** `a |> f`, followed by text that neither continues `f` nor leads on to another
      arrow, is one match, and the rule renders it `f(a)`. */
  lemma MatchOne(init: Call, ws1: string, ws2: string, f: string, rest: string)
    requires ValidCall(init) && ValidArrow(ws1, ws2) && |f| > 0 && AllIn(f, Word)
    requires rest == [] || (!IsWord(rest[0]) && !HasAt(rest, RunEnd(rest, 0, Space), "|>"))
    ensures var src := OneText(init, ws1, ws2, f);
      MatchPipe(src + rest) == Some(PipeMatch(CallText(init), f, None, |src|))
  {
    var src := OneText(init, ws1, ws2, f);
    OnePieces(init, ws1, ws2, f, rest);
    QuietAfter(src, rest);
    OneMatchAt(src + rest, init, ws1, ws2, f, |src|);
  }

  /** What follows a text `src` neither continues a word nor leads to `|>`. */
  lemma QuietAfter(src: string, rest: string)
    requires rest == [] || (!IsWord(rest[0]) && !HasAt(rest, RunEnd(rest, 0, Space), "|>"))
    ensures var s := src + rest;
      |src| == |s| || (!IsWord(s[|src|]) && !HasAt(s, RunEnd(s, |src|, Space), "|>"))
  {
    var s := src + rest;
    if rest != [] {
      assert s[|src|] == rest[0];
      RunEndShift(src, rest, 0, Space);
      HasAtShift(src, rest, RunEnd(rest, 0, Space), "|>");
    }
  }

  /** `a |> f` read where it is written at the start of `s`, ending at `d`. */
  lemma OneMatchAt(s: string, init: Call, ws1: string, ws2: string, f: string, d: nat)
    requires ValidCall(init) && ValidArrow(ws1, ws2) && |f| > 0 && AllIn(f, Word)
    requires var n := |CallText(init)|;
      && HasAt(s, 0, CallText(init)) && HasAt(s, n, ArrowText(ws1, ws2))
      && HasAt(s, n + |ArrowText(ws1, ws2)|, f)
      && d == n + |ArrowText(ws1, ws2)| + |f|
    requires d == |s| || (!IsWord(s[d]) && !HasAt(s, RunEnd(s, d, Space), "|>"))
    ensures MatchPipe(s) == Some(PipeMatch(CallText(init), f, None, d))
  {
    var n := |CallText(init)|;
    var c := n + |ArrowText(ws1, ws2)|;
    OneAt(s, init, ws1, ws2, f);
    RunEndAt(s, c, f, Word);
    NoSecond(s, d);
    assert s[..n] == CallText(init) && s[c..d] == f;
    OneFrom(s, n, c, d);
  }

  /** `a |> f |> g` written out: where its pieces sit. */
  lemma TwoPieces(init: Call, ws1: string, ws2: string, f: string, ws3: string, ws4: string, g: Call,
                  rest: string)
    ensures var one := OneText(init, ws1, ws2, f);
      var s := TwoText(init, ws1, ws2, f, ws3, ws4, g) + rest;
      && HasAt(s, 0, one) && HasAt(s, |one|, ArrowText(ws3, ws4))
      && HasAt(s, |one| + |ArrowText(ws3, ws4)|, CallText(g))
      && |TwoText(init, ws1, ws2, f, ws3, ws4, g)| == |one| + |ArrowText(ws3, ws4)| + |CallText(g)|
      && s[|TwoText(init, ws1, ws2, f, ws3, ws4, g)|..] == rest
  {
    var p1 := OneText(init, ws1, ws2, f);
    var a2 := ArrowText(ws3, ws4);
    var p2 := p1 + a2;
    var p3 := p2 + CallText(g);
    assert HasAt(p3 + rest, 0, p1) by {
      HasAtOver([], p1, []);
      assert [] + p1 == p1;
      HasAtGrow(p1, a2, 0, p1);
      HasAtGrow(p2, CallText(g), 0, p1);
      HasAtGrow(p3, rest, 0, p1);
    }
    assert HasAt(p3 + rest, |p1|, a2) by {
      HasAtOver(p1, a2, []);
      HasAtGrow(p2, CallText(g), |p1|, a2);
      HasAtGrow(p3, rest, |p1|, a2);
    }
    assert HasAt(p3 + rest, |p2|, CallText(g)) by {
      HasAtOver(p2, CallText(g), []);
      HasAtGrow(p3, rest, |p2|, CallText(g));
    }
    assert (p3 + rest)[|p3|..] == rest;
  }

  /** The pieces of `a |> f` inside a longer text. */
  lemma OneLift(s: string, init: Call, ws1: string, ws2: string, f: string)
    requires HasAt(s, 0, OneText(init, ws1, ws2, f))
    ensures var n := |CallText(init)|;
      && HasAt(s, 0, CallText(init)) && HasAt(s, n, ArrowText(ws1, ws2))
      && HasAt(s, n + |ArrowText(ws1, ws2)|, f)
      && |OneText(init, ws1, ws2, f)| == n + |ArrowText(ws1, ws2)| + |f|
  {
    var one := OneText(init, ws1, ws2, f);
    var n := |CallText(init)|;
    OnePieces(init, ws1, ws2, f, []);
    assert one + [] == one;
    HasAtInner(s, 0, one, 0, CallText(init));
    HasAtInner(s, 0, one, n, ArrowText(ws1, ws2));
    HasAtInner(s, 0, one, n + |ArrowText(ws1, ws2)|, f);
  }

  /** The second arrow and callee, read back. */
  lemma SecondAt(s: string, d: nat, ws3: string, ws4: string, g: Call, e: nat)
    requires ValidArrow(ws3, ws4) && ValidCall(g)
    requires HasAt(s, d, ArrowText(ws3, ws4)) && HasAt(s, d + |ArrowText(ws3, ws4)|, CallText(g))
    requires e == d + |ArrowText(ws3, ws4)| + |CallText(g)| && CallEnds(s, e, g)
    ensures var f := d + |ArrowText(ws3, ws4)|;
      && Arrow(s, d) == Some(f) && f < RunEnd(s, f, Word) && CallEnd(s, f) == f + |CallText(g)|
  {
    var f := d + |ArrowText(ws3, ws4)|;
    ArrowTextLen(ws3, ws4);
    CallPieces(s, f, g);
    FirstAt(s, f, g.name);
    assert !IsSpace(s[f]);
    ArrowAt(s, d, ws3, ws4);
    CallAt(s, f, g);
  }

  /** The first function, followed by an arrow, ends where it was written. */
  lemma Func1End(s: string, c: nat, f: string, d: nat, ws3: string, ws4: string)
    requires |f| > 0 && AllIn(f, Word) && HasAt(s, c, f) && d == c + |f|
    requires HasAt(s, d, ArrowText(ws3, ws4)) && AllIn(ws3, Space)
    ensures RunEnd(s, c, Word) == d
  {
    FirstAt(s, d, ArrowText(ws3, ws4));
    assert ArrowText(ws3, ws4)[|ws3|] == '|';
    if ws3 != [] {
      assert ArrowText(ws3, ws4)[0] == ws3[0];
    }
    RunEndAt(s, c, f, Word);
  }

  lemma EndsAfter(src: string, rest: string, g: Call)
    requires Ends(g, rest)
    ensures CallEnds(src + rest, |src|, g)
  {
    if rest != [] {
      assert (src + rest)[|src|] == rest[0];
    }
  }

  /** `a |> f |> g` is one match, which the rule renders `g(f(a))`. */
  lemma MatchTwo(init: Call, ws1: string, ws2: string, f: string, ws3: string, ws4: string, g: Call,
                 rest: string)
    requires ValidCall(init) && ValidArrow(ws1, ws2) && |f| > 0 && AllIn(f, Word)
    requires ValidArrow(ws3, ws4) && ValidCall(g) && Ends(g, rest)
    ensures var src := TwoText(init, ws1, ws2, f, ws3, ws4, g);
      MatchPipe(src + rest) == Some(PipeMatch(CallText(init), f, Some(CallText(g)), |src|))
  {
    var src := TwoText(init, ws1, ws2, f, ws3, ws4, g);
    TwoPieces(init, ws1, ws2, f, ws3, ws4, g, rest);
    EndsAfter(src, rest, g);
    TwoAt(src + rest, init, ws1, ws2, f, ws3, ws4, g, |src|);
  }

  /** `a |> f |> g` laid out from the start of `s` and ending at `e`. */
  lemma TwoAt(s: string, init: Call, ws1: string, ws2: string, f: string, ws3: string, ws4: string,
              g: Call, e: nat)
    requires ValidCall(init) && ValidArrow(ws1, ws2) && |f| > 0 && AllIn(f, Word)
    requires ValidArrow(ws3, ws4) && ValidCall(g)
    requires var d := |OneText(init, ws1, ws2, f)|;
      && HasAt(s, 0, OneText(init, ws1, ws2, f)) && HasAt(s, d, ArrowText(ws3, ws4))
      && HasAt(s, d + |ArrowText(ws3, ws4)|, CallText(g))
      && e == d + |ArrowText(ws3, ws4)| + |CallText(g)| && CallEnds(s, e, g)
    ensures MatchPipe(s) == Some(PipeMatch(CallText(init), f, Some(CallText(g)), e))
  {
    var n := |CallText(init)|;
    var c := n + |ArrowText(ws1, ws2)|;
    var d := |OneText(init, ws1, ws2, f)|;
    var h := d + |ArrowText(ws3, ws4)|;
    FirstStageAt(s, init, ws1, ws2, f, ws3, ws4);
    SecondAt(s, d, ws3, ws4, g, e);
    assert s[h..e] == CallText(g);
    TwoFrom(s, n, c, d, h, e);
  }

  /** The callee, the first arrow and the first function of a two-stage pipeline. */
  lemma FirstStageAt(s: string, init: Call, ws1: string, ws2: string, f: string, ws3: string, ws4: string)
    requires ValidCall(init) && ValidArrow(ws1, ws2) && |f| > 0 && AllIn(f, Word) && AllIn(ws3, Space)
    requires HasAt(s, 0, OneText(init, ws1, ws2, f))
    requires HasAt(s, |OneText(init, ws1, ws2, f)|, ArrowText(ws3, ws4))
    ensures var n := |CallText(init)|; var c := n + |ArrowText(ws1, ws2)|; var d := |OneText(init, ws1, ws2, f)|;
      && RunEnd(s, 0, Word) == |init.name| && CallEnd(s, 0) == n && Arrow(s, n) == Some(c)
      && c < d && RunEnd(s, c, Word) == d && s[..n] == CallText(init) && s[c..d] == f
  {
    var n := |CallText(init)|;
    var c := n + |ArrowText(ws1, ws2)|;
    var d := |OneText(init, ws1, ws2, f)|;
    OneLift(s, init, ws1, ws2, f);
    OneAt(s, init, ws1, ws2, f);
    Func1End(s, c, f, d, ws3, ws4);
  }

  // ---------------------------------------------------------------------------
  // The pass.

  lemma RuleShift(x: string, t: string, p: nat)
    requires p <= |t|
    ensures PipeRule(x + t, |x| + p) == PipeRule(t, p)
  {
    assert (x + t)[|x| + p..] == t[p..];
  }

  /** A match of exactly `src` at the start of `src + rest`, after text `x` in which
      no match starts, is replaced in place. */
  lemma PipeSplice(x: string, src: string, rest: string, m: PipeMatch)
    requires MatchPipe(src + rest) == Some(m) && m.len == |src|
    requires forall p :: 0 <= p < |x| ==> PipeRule(x + src + rest, p).None?
    ensures PipePass(x + src + rest) == x + Render(m) + PipePass(rest)
  {
    assert (src + rest)[0..] == src + rest;
    forall p | 0 <= p <= |src + rest|
      ensures PipeRule(x + (src + rest), |x| + p) == PipeRule(src + rest, p)
    {
      RuleShift(x, src + rest, p);
    }
    forall p | 0 <= p <= |rest|
      ensures PipeRule(src + rest, |src| + p) == PipeRule(rest, p)
    {
      RuleShift(src, rest, p);
    }
    Splice(PipeRule, x, src, rest, Render(m));
  }

  /** `a |> f` becomes `f(a)`. */
  lemma PassOne(x: string, src: string, init: Call, ws1: string, ws2: string, f: string, rest: string)
    requires ValidCall(init) && ValidArrow(ws1, ws2) && |f| > 0 && AllIn(f, Word)
    requires src == OneText(init, ws1, ws2, f)
    requires rest == [] || (!IsWord(rest[0]) && !HasAt(rest, RunEnd(rest, 0, Space), "|>"))
    requires forall p :: 0 <= p < |x| ==> PipeRule(x + src + rest, p).None?
    ensures PipePass(x + src + rest) == x + (f + "(" + CallText(init) + ")") + PipePass(rest)
  {
    MatchOne(init, ws1, ws2, f, rest);
    PipeSplice(x, src, rest, PipeMatch(CallText(init), f, None, |src|));
  }

  /** `a |> f |> g` becomes `g(f(a))`. */
  lemma PassTwo(x: string, src: string, init: Call, ws1: string, ws2: string, f: string, ws3: string,
                ws4: string, g: Call, rest: string)
    requires ValidCall(init) && ValidArrow(ws1, ws2) && |f| > 0 && AllIn(f, Word)
    requires ValidArrow(ws3, ws4) && ValidCall(g) && Ends(g, rest)
    requires src == TwoText(init, ws1, ws2, f, ws3, ws4, g)
    requires forall p :: 0 <= p < |x| ==> PipeRule(x + src + rest, p).None?
    ensures PipePass(x + src + rest)
         == x + (CallText(g) + "(" + f + "(" + CallText(init) + "))") + PipePass(rest)
  {
    MatchTwo(init, ws1, ws2, f, ws3, ws4, g, rest);
    PipeSplice(x, src, rest, PipeMatch(CallText(init), f, Some(CallText(g)), |src|));
  }

  /** A match needs a `|>` after its start. */
  lemma MatchHasArrow(u: string)
    requires MatchPipe(u).Some?
    ensures exists b :: 0 <= b < |u| && HasAt(u, b, "|>")
  {
    var a := RunEnd(u, 0, Word);
    var ie := ArgsEnd(u, a);
    assert HasAt(u, RunEnd(u, ie, Space), "|>");
  }

  /** Text without `|>` is left alone. */
  lemma NoArrowUnchanged(s: string)
    requires forall p :: 0 <= p < |s| ==> !HasAt(s, p, "|>")
    ensures NoMatch(PipeRule, s)
    ensures PipePass(s) == s
  {
    forall p | 0 <= p < |s|
      ensures PipeRule(s, p).None?
    {
      if MatchPipe(s[p..]).Some? {
        MatchHasArrow(s[p..]);
        var b :| 0 <= b < |s[p..]| && HasAt(s[p..], b, "|>");
        HasAtSuffix(s, p, b, "|>");
      }
    }
    Unchanged(PipeRule, s);
  }

  lemma NoMatchAtNonWord(u: string)
    requires u != [] && !IsWord(u[0])
    ensures MatchPipe(u).None?
  {
  }

  /** A word with nothing after it does not start a match. */
  lemma NoMatchInWord(u: string)
    requires AllIn(u, Word)
    ensures MatchPipe(u).None?
  {
    if u != [] {
      RunEndAt(u, 0, u, Word);
      assert u[0..|u|] == u;
    }
  }

  /** A stage beyond the second is not consumed: `a |> f |> g |> h` becomes
      `g(f(a)) |> h`. */
  lemma ThirdStageLeft(init: Call, ws1: string, ws2: string, f: string, ws3: string, ws4: string, g: Call,
                       ws5: string, ws6: string, h: string)
    requires ValidCall(init) && ValidArrow(ws1, ws2) && |f| > 0 && AllIn(f, Word)
    requires ValidArrow(ws3, ws4) && ValidCall(g) && ValidArrow(ws5, ws6) && AllIn(h, Word)
    ensures PipePass(TwoText(init, ws1, ws2, f, ws3, ws4, g) + (ArrowText(ws5, ws6) + h))
         == (CallText(g) + "(" + f + "(" + CallText(init) + "))") + (ArrowText(ws5, ws6) + h)
  {
    var src := TwoText(init, ws1, ws2, f, ws3, ws4, g);
    var rest := ArrowText(ws5, ws6) + h;
    var r := CallText(g) + "(" + f + "(" + CallText(init) + "))";
    assert rest[0] == ArrowText(ws5, ws6)[0];
    if ws5 != [] {
      assert ArrowText(ws5, ws6)[0] == ws5[0];
    } else {
      assert ArrowText(ws5, ws6)[0] == '|';
    }
    EmptyPrefix(src, rest);
    PassTwo([], src, init, ws1, ws2, f, ws3, ws4, g, rest);
    TailUnchanged(ws5, ws6, h);
    EmptyPrefix(r, rest);
  }

  /** An arrow followed by a bare word, with nothing before it: no match. */
  lemma TailUnchanged(ws5: string, ws6: string, h: string)
    requires ValidArrow(ws5, ws6) && AllIn(h, Word)
    ensures PipePass(ArrowText(ws5, ws6) + h) == ArrowText(ws5, ws6) + h
  {
    var w := ArrowText(ws5, ws6);
    var t := w + h;
    forall p | 0 <= p < |t|
      ensures PipeRule(t, p).None?
    {
      if p < |w| {
        assert t[p..][0] == w[p];
        ArrowNotWord(ws5, ws6, p);
        NoMatchAtNonWord(t[p..]);
      } else {
        assert t[p..] == h[p - |w|..];
        NoMatchInWord(h[p - |w|..]);
      }
    }
    Unchanged(PipeRule, t);
  }

  lemma ArrowNotWord(ws1: string, ws2: string, p: nat)
    requires ValidArrow(ws1, ws2) && p < |ArrowText(ws1, ws2)|
    ensures !IsWord(ArrowText(ws1, ws2)[p])
  {
    var w := ArrowText(ws1, ws2);
    if p < |ws1| {
      assert w[p] == ws1[p];
    } else if p < |ws1| + 2 {
      assert w[p] == "|>"[p - |ws1|];
    } else {
      assert w[p] == ws2[p - |ws1| - 2];
    }
  }

}
