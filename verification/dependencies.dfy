/** `extractDependencies` (src/compiler.ts:199-208): the quoted specifier of every match
    of the global pattern `import\s+.*?\s+from\s+['"]([^'"]+)['"]`, in order.

    The pattern is the only one in the compiler whose matching order matters: the
    greedy `\s+` after `import` is tried longest first, and for each length the lazy
    `.*?`, which never crosses a line terminator, is tried shortest first. The tail
    `\s+from\s+['"]([^'"]+)['"]` is deterministic where it starts: each run is
    followed by a character its class cannot contain. */
module Dependencies {
  import opened Wrappers
  import opened Chars
  import opened Scan

  /** A captured specifier and where the match ends. */
  datatype Found = Found(spec: string, end: nat)

  predicate GoodSpec(d: string) {
    |d| > 0 && AllIn(d, NotQuote)
  }

  /** `\s+from\s+['"]([^'"]+)['"]` at `q`. */
  function TailAt(s: string, q: nat): (r: Option<Found>)
    requires q <= |s|
    ensures r.Some? ==> q < r.value.end <= |s| && GoodSpec(r.value.spec)
  {
    var b := RunEnd(s, q, Space);
    if b == q || !HasAt(s, b, "from") then None
    else
      var c := RunEnd(s, b + 4, Space);
      if c == b + 4 || c == |s| || !IsQuote(s[c]) then None
      else
        var d := RunEnd(s, c + 1, NotQuote);
        if d == c + 1 || d == |s| then None
        else
          RunEndSpec(s, c + 1, NotQuote);
          AllInSlice(s, c + 1, d, NotQuote);
          Some(Found(s[c + 1..d], d + 1))
  }

  /** `.*?` from `q` followed by the tail: the first position up to `top` (the end of
      the line) where the tail matches. */
  function Lazy(s: string, q: nat, top: nat): (r: Option<Found>)
    requires q <= top <= |s|
    ensures r.Some? ==> q < r.value.end <= |s| && GoodSpec(r.value.spec)
    decreases top - q
  {
    match TailAt(s, q)
    case Some(r) => Some(r)
    case None => if q < top then Lazy(s, q + 1, top) else None
  }

  /** `\s+` after `import` (which ends at `base`) given back one character at a time:
      `k` characters taken, then fewer. */
  function Backtrack(s: string, base: nat, k: nat): (r: Option<Found>)
    requires base + k <= |s|
    ensures r.Some? ==> base < r.value.end <= |s| && GoodSpec(r.value.spec)
  {
    if k == 0 then None
    else
      match Lazy(s, base + k, RunEnd(s, base + k, Dot))
      case Some(r) => Some(r)
      case None => Backtrack(s, base, k - 1)
  }

  /** The match of the import pattern at the start of `s`, if any. */
  function MatchImport(s: string): (r: Option<Found>)
    ensures r.Some? ==> 6 < r.value.end <= |s| && GoodSpec(r.value.spec)
  {
    if !HasAt(s, 0, "import") then None
    else Backtrack(s, 6, RunEnd(s, 6, Space) - 6)
  }

  /** The specifiers of the matches in `u`, scanning from its start. */
  function Hits(u: string): (ds: seq<string>)
    ensures forall d <- ds :: GoodSpec(d)
    decreases |u|
  {
    if u == [] then []
    else match MatchImport(u)
      case Some(f) => [f.spec] + Hits(u[f.end..])
      case None => Hits(u[1..])
  }

  function ExtractDependencies(code: string): (ds: seq<string>)
    ensures forall d <- ds :: |d| > 0 && '\'' !in d && '"' !in d
  {
    var ds := Hits(code);
    forall d <- ds
      ensures '\'' !in d && '"' !in d
    {
      assert GoodSpec(d);
      assert forall k :: 0 <= k < |d| ==> d[k] != '\'' && d[k] != '"';
    }
    ds
  }

  // ---------------------------------------------------------------------------
  // The scan.

  /** Text in which no match starts contributes nothing. */
  lemma {:induction false} HitsSkip(x: string, v: string)
    requires forall p :: 0 <= p < |x| ==> MatchImport((x + v)[p..]).None?
    ensures Hits(x + v) == Hits(v)
    decreases |x|
  {
    if x != [] {
      var u := x + v;
      assert u[0..] == u;
      assert MatchImport(u).None?;
      assert Hits(u) == Hits(u[1..]);
      assert u[1..] == x[1..] + v;
      forall p | 0 <= p < |x[1..]|
        ensures MatchImport((x[1..] + v)[p..]).None?
      {
        assert (x[1..] + v)[p..] == (x + v)[p + 1..];
      }
      HitsSkip(x[1..], v);
    } else {
      assert x + v == v;
    }
  }

  /** An import statement matched exactly, after text in which no match starts,
      contributes its specifier and the scan goes on after it. */
  lemma DependenciesSplice(x: string, src: string, rest: string, spec: string)
    requires forall p :: 0 <= p < |x| ==> MatchImport((x + src + rest)[p..]).None?
    requires MatchImport(src + rest) == Some(Found(spec, |src|))
    ensures ExtractDependencies(x + src + rest) == [spec] + ExtractDependencies(rest)
  {
    assert x + src + rest == x + (src + rest);
    HitsSkip(x, src + rest);
    assert (src + rest)[|src|..] == rest;
  }

  /** The scan from `i` reports nothing exactly when no match starts from `i` on. */
  lemma {:induction false} NoneFrom(s: string, i: nat)
    requires i <= |s|
    ensures Hits(s[i..]) == [] <==> forall p :: i <= p < |s| ==> MatchImport(s[p..]).None?
    decreases |s| - i
  {
    var u := s[i..];
    if i < |s| {
      assert u[0..] == u && u[1..] == s[i + 1..];
      NoneFrom(s, i + 1);
      if MatchImport(u).None? {
        assert Hits(u) == Hits(s[i + 1..]);
      } else {
        assert Hits(u) != [];
      }
    } else {
      assert u == [];
    }
  }

  /** No dependency is reported exactly when the pattern matches nowhere. */
  lemma NoneIff(s: string)
    ensures ExtractDependencies(s) == [] <==> forall p :: 0 <= p < |s| ==> MatchImport(s[p..]).None?
  {
    NoneFrom(s, 0);
    assert s[0..] == s;
  }

  // ---------------------------------------------------------------------------
  // A match needs `from`.

  lemma {:induction false} LazyFrom(s: string, q: nat, top: nat)
    requires q <= top <= |s| && Lazy(s, q, top).Some?
    ensures exists b :: q <= b < |s| && HasAt(s, b, "from")
    decreases top - q
  {
    if TailAt(s, q).None? {
      LazyFrom(s, q + 1, top);
    } else {
      assert HasAt(s, RunEnd(s, q, Space), "from");
    }
  }

  lemma {:induction false} BacktrackFrom(s: string, base: nat, k: nat)
    requires base + k <= |s| && Backtrack(s, base, k).Some?
    ensures exists b :: base <= b < |s| && HasAt(s, b, "from")
  {
    var q := base + k;
    if Lazy(s, q, RunEnd(s, q, Dot)).Some? {
      LazyFrom(s, q, RunEnd(s, q, Dot));
    } else {
      BacktrackFrom(s, base, k - 1);
    }
  }

  /** Text without `from` has no dependencies. */
  lemma NoFromNoDeps(s: string)
    requires forall p :: 0 <= p < |s| ==> !HasAt(s, p, "from")
    ensures ExtractDependencies(s) == []
  {
    forall p | 0 <= p < |s|
      ensures MatchImport(s[p..]).None?
    {
      var u := s[p..];
      if MatchImport(u).Some? {
        BacktrackFrom(u, 6, RunEnd(u, 6, Space) - 6);
        var b :| 6 <= b < |u| && HasAt(u, b, "from");
        HasAtSuffix(s, p, b, "from");
      }
    }
    NoneIff(s);
  }

  /** Text without an `f` has no `from`. */
  lemma WithoutF(s: string)
    requires 'f' !in s
    ensures forall p :: 0 <= p < |s| ==> !HasAt(s, p, "from")
  {
    forall p | 0 <= p < |s| && HasAt(s, p, "from")
      ensures false
    {
      FirstAt(s, p, "from");
    }
  }

  /** A side-effect import names no `from`, so its specifier is not reported. */
  lemma BareImportIgnored()
    ensures ExtractDependencies("import './styles.css';") == []
  {
    WithoutF("import './styles.css';");
    NoFromNoDeps("import './styles.css';");
  }

  // ---------------------------------------------------------------------------
  // Import statements as they are written.

  /** `<q1><spec><q2>`: a quoted module specifier. */
  function Quoted(q1: char, spec: string, q2: char): string {
    [q1] + spec + [q2]
  }

  /** `<ws2>from<ws3><q1><spec><q2>`: the part of an import statement the tail reads. */
  function FromText(ws2: string, ws3: string, q1: char, spec: string, q2: char): string {
    ws2 + "from" + (ws3 + Quoted(q1, spec, q2))
  }

  predicate FromParts(ws2: string, ws3: string, q1: char, spec: string, q2: char) {
    && |ws2| > 0 && AllIn(ws2, Space)
    && |ws3| > 0 && AllIn(ws3, Space)
    && IsQuote(q1) && IsQuote(q2)
    && GoodSpec(spec)
  }

  /** An import clause the lazy `.*?` reads through: it stays on one line, does not
      start with white space and does not contain `from`. Both `React` and
      `{ useState }` qualify. */
  predicate ClauseOk(clause: string) {
    && |clause| > 0
    && !IsSpace(clause[0])
    && AllIn(clause, Dot)
    && forall p :: 0 <= p < |clause| ==> !HasAt(clause, p, "from")
  }

  /** `import<ws1><clause><ws2>from<ws3><q1><spec><q2>` */
  function ImportText(ws1: string, clause: string, ws2: string, ws3: string, q1: char, spec: string, q2: char): string {
    "import" + ws1 + (clause + FromText(ws2, ws3, q1, spec, q2))
  }

  /** The tail, read from its pieces' positions. */
  lemma TailRead(s: string, q: nat, b: nat, c: nat, d: nat, spec: string)
    requires q <= |s|
    requires q < b == RunEnd(s, q, Space) && HasAt(s, b, "from")
    requires b + 4 < c == RunEnd(s, b + 4, Space) && c < |s| && IsQuote(s[c])
    requires c + 1 < d == RunEnd(s, c + 1, NotQuote) && d < |s| && s[c + 1..d] == spec
    ensures TailAt(s, q) == Some(Found(spec, d + 1))
  {
  }

  /** Where the pieces of a `from` part written at `q` lie. */
  lemma FromLift(s: string, q: nat, b: nat, ws2: string, ws3: string, q1: char, spec: string, q2: char)
    requires HasAt(s, q, FromText(ws2, ws3, q1, spec, q2)) && b == q + |ws2|
    ensures HasAt(s, q, ws2) && HasAt(s, b, "from") && HasAt(s, b + 4, ws3 + Quoted(q1, spec, q2))
  {
    var w := FromText(ws2, ws3, q1, spec, q2);
    HasAtPieces(ws2, "from", ws3 + Quoted(q1, spec, q2));
    HasAtInner(s, q, w, 0, ws2);
    HasAtInner(s, q, w, |ws2|, "from");
    HasAtInner(s, q, w, |ws2| + 4, ws3 + Quoted(q1, spec, q2));
  }

  lemma QuotedLift(s: string, a: nat, ws3: string, q1: char, spec: string, q2: char)
    requires HasAt(s, a, ws3 + Quoted(q1, spec, q2))
    ensures HasAt(s, a, ws3) && HasAt(s, a + |ws3|, Quoted(q1, spec, q2))
  {
    var w := ws3 + Quoted(q1, spec, q2);
    HasAtPieces(ws3, Quoted(q1, spec, q2), []);
    assert ws3 + Quoted(q1, spec, q2) + [] == w;
    HasAtInner(s, a, w, 0, ws3);
    HasAtInner(s, a, w, |ws3|, Quoted(q1, spec, q2));
  }

  lemma LiteralLift(s: string, c: nat, d: nat, q1: char, spec: string, q2: char)
    requires HasAt(s, c, Quoted(q1, spec, q2)) && d == c + 1 + |spec|
    ensures d < |s| && s[c] == q1 && HasAt(s, c + 1, spec) && s[d] == q2
  {
    var w := Quoted(q1, spec, q2);
    HasAtPieces([q1], spec, [q2]);
    HasAtInner(s, c, w, 0, [q1]);
    HasAtInner(s, c, w, 1, spec);
    HasAtInner(s, c, w, 1 + |spec|, [q2]);
    FirstAt(s, c, [q1]);
    FirstAt(s, d, [q2]);
  }

  /** Where the white space of a `from` part written at `q` ends. */
  lemma FromRun(s: string, q: nat, ws2: string, ws3: string, q1: char, spec: string, q2: char)
    requires HasAt(s, q, FromText(ws2, ws3, q1, spec, q2))
    requires FromParts(ws2, ws3, q1, spec, q2)
    ensures RunEnd(s, q, Space) == q + |ws2|
    ensures HasAt(s, q + |ws2|, "from") && HasAt(s, q + |ws2| + 4, ws3 + Quoted(q1, spec, q2))
    ensures forall t :: q <= t < q + |ws2| ==> IsSpace(s[t])
  {
    var b := q + |ws2|;
    FromLift(s, q, b, ws2, ws3, q1, spec, q2);
    FirstAt(s, b, "from");
    RunEndAt(s, q, ws2, Space);
    SpacesAt(s, q, ws2);
  }

  /** White space and a quoted specifier written at `a`, read as the tail reads them:
      the opening quote at `c`, the closing one at `d`. */
  lemma QuoteRead(s: string, a: nat, c: nat, d: nat, ws3: string, q1: char, spec: string, q2: char)
    requires HasAt(s, a, ws3 + Quoted(q1, spec, q2))
    requires AllIn(ws3, Space) && IsQuote(q1) && IsQuote(q2) && GoodSpec(spec)
    requires c == a + |ws3| && d == c + 1 + |spec|
    ensures RunEnd(s, a, Space) == c && c < |s| && IsQuote(s[c])
    ensures RunEnd(s, c + 1, NotQuote) == d && d < |s| && s[c + 1..d] == spec
  {
    QuotedLift(s, a, ws3, q1, spec, q2);
    LiteralLift(s, c, d, q1, spec, q2);
    RunEndAt(s, a, ws3, Space);
    RunEndAt(s, c + 1, spec, NotQuote);
  }

  lemma FromTextLen(ws2: string, ws3: string, q1: char, spec: string, q2: char)
    ensures |FromText(ws2, ws3, q1, spec, q2)| == |ws2| + 4 + |ws3| + 1 + |spec| + 1
  {
  }

  /** The tail read where an import statement's `from` part is written. */
  lemma TailFrom(s: string, q: nat, ws2: string, ws3: string, q1: char, spec: string, q2: char)
    requires HasAt(s, q, FromText(ws2, ws3, q1, spec, q2))
    requires FromParts(ws2, ws3, q1, spec, q2)
    ensures TailAt(s, q) == Some(Found(spec, q + |FromText(ws2, ws3, q1, spec, q2)|))
  {
    var b := q + |ws2|;
    var c := b + 4 + |ws3|;
    var d := c + 1 + |spec|;
    FromRun(s, q, ws2, ws3, q1, spec, q2);
    QuoteRead(s, b + 4, c, d, ws3, q1, spec, q2);
    TailRead(s, q, b, c, d, spec);
    FromTextLen(ws2, ws3, q1, spec, q2);
  }

  /** A clause without `from` has no occurrence of it that ends inside the clause. */
  lemma ClauseNoFrom(s: string, at: nat, clause: string)
    requires HasAt(s, at, clause) && ClauseOk(clause)
    ensures forall p :: at <= p && p + 4 <= at + |clause| ==> !HasAt(s, p, "from")
  {
    forall p | at <= p && p + 4 <= at + |clause| && HasAt(s, p, "from")
      ensures false
    {
      forall t | 0 <= t < 4
        ensures clause[p - at + t] == "from"[t]
      {
        assert clause[p - at + t] == s[at..at + |clause|][p - at + t];
        assert s[p + t] == s[p..p + 4][t];
      }
      assert clause[p - at..p - at + 4] == "from";
      assert HasAt(clause, p - at, "from");
    }
  }

  lemma SpacesAt(s: string, e: nat, ws: string)
    requires HasAt(s, e, ws) && AllIn(ws, Space)
    ensures forall t :: e <= t < e + |ws| ==> IsSpace(s[t])
  {
    forall t | e <= t < e + |ws|
      ensures IsSpace(s[t])
    {
      assert s[t] == s[e..e + |ws|][t - e];
    }
  }

  /** A white-space run that starts inside the clause and is followed by `from` ends
      at the `from` after the clause: every other candidate overlaps the clause or
      the white space after it. */
  lemma FromPosition(s: string, q: nat, e: nat, f: nat, b: nat)
    requires HasAt(s, f, "from") && HasAt(s, b, "from")
    requires q <= b && q < e < f
    requires forall p :: q <= p && p + 4 <= e ==> !HasAt(s, p, "from")
    requires forall t :: e <= t < f ==> IsSpace(s[t])
    requires forall t :: q <= t < b ==> IsSpace(s[t])
    ensures b == f
  {
    FirstAt(s, f, "from");
    FirstAt(s, b, "from");
    FromLetters(s, b);
    assert IsSpace(s[e]);
  }

  lemma FromLetters(s: string, b: nat)
    requires HasAt(s, b, "from")
    ensures forall i :: b <= i < b + 4 ==> !IsSpace(s[i])
  {
    forall i | b <= i < b + 4
      ensures !IsSpace(s[i])
    {
      assert s[i] == s[b..b + 4][i - b];
    }
  }

  /** The tail depends on its start only through where the white space there ends. */
  lemma TailSame(s: string, q: nat, q': nat)
    requires q <= |s| && q' <= |s|
    requires q < RunEnd(s, q, Space) == RunEnd(s, q', Space) && q' < RunEnd(s, q', Space)
    ensures TailAt(s, q) == TailAt(s, q')
  {
  }

  /** A white-space run from inside the clause that reaches a `from` reaches the one
      after the clause. */
  lemma ClauseRun(s: string, at: nat, clause: string, q: nat,
                  ws2: string, ws3: string, q1: char, spec: string, q2: char)
    requires ClauseOk(clause) && FromParts(ws2, ws3, q1, spec, q2)
    requires HasAt(s, at, clause)
    requires HasAt(s, at + |clause|, FromText(ws2, ws3, q1, spec, q2))
    requires at <= q < at + |clause|
    requires HasAt(s, RunEnd(s, q, Space), "from")
    ensures RunEnd(s, q, Space) == RunEnd(s, at + |clause|, Space)
  {
    var e := at + |clause|;
    RunEndSpec(s, q, Space);
    FromRun(s, e, ws2, ws3, q1, spec, q2);
    ClauseNoFrom(s, at, clause);
    FromPosition(s, q, e, e + |ws2|, RunEnd(s, q, Space));
  }

  /** From a position inside the clause the tail either fails or reads the very `from`
      part the clause is followed by. */
  lemma ClauseTail(s: string, at: nat, clause: string, q: nat,
                   ws2: string, ws3: string, q1: char, spec: string, q2: char)
    requires ClauseOk(clause) && FromParts(ws2, ws3, q1, spec, q2)
    requires HasAt(s, at, clause)
    requires HasAt(s, at + |clause|, FromText(ws2, ws3, q1, spec, q2))
    requires at <= q < at + |clause|
    ensures TailAt(s, q).None? || TailAt(s, q) == TailAt(s, at + |clause|)
  {
    var e := at + |clause|;
    if TailAt(s, q).Some? {
      ClauseRun(s, at, clause, q, ws2, ws3, q1, spec, q2);
      FromRun(s, e, ws2, ws3, q1, spec, q2);
      TailSame(s, q, e);
    }
  }

  /** The lazy `.*?` stops at the first position where the tail matches. */
  lemma {:induction false} LazyFirst(s: string, q0: nat, q1: nat, top: nat, r: Found)
    requires q0 <= q1 <= top <= |s|
    requires forall q :: q0 <= q < q1 ==> TailAt(s, q).None? || TailAt(s, q) == Some(r)
    requires TailAt(s, q1) == Some(r)
    ensures Lazy(s, q0, top) == Some(r)
    decreases q1 - q0
  {
    if q0 < q1 && TailAt(s, q0).None? {
      LazyFirst(s, q0 + 1, q1, top, r);
    }
  }

  /** Every position of the clause: the tail fails there or reads what it reads after it. */
  lemma ClauseTails(s: string, at: nat, clause: string,
                    ws2: string, ws3: string, q1: char, spec: string, q2: char)
    requires ClauseOk(clause) && FromParts(ws2, ws3, q1, spec, q2)
    requires HasAt(s, at, clause)
    requires HasAt(s, at + |clause|, FromText(ws2, ws3, q1, spec, q2))
    ensures forall q :: at <= q < at + |clause| ==> TailAt(s, q).None? || TailAt(s, q) == TailAt(s, at + |clause|)
  {
    forall q | at <= q < at + |clause|
      ensures TailAt(s, q).None? || TailAt(s, q) == TailAt(s, at + |clause|)
    {
      ClauseTail(s, at, clause, q, ws2, ws3, q1, spec, q2);
    }
  }

  /** The lazy `.*?` run from the start of the clause stops where the clause ends. */
  lemma ClauseLazy(s: string, at: nat, clause: string,
                   ws2: string, ws3: string, q1: char, spec: string, q2: char)
    requires HasAt(s, at, clause)
    requires HasAt(s, at + |clause|, FromText(ws2, ws3, q1, spec, q2))
    requires ClauseOk(clause) && FromParts(ws2, ws3, q1, spec, q2)
    ensures Lazy(s, at, RunEnd(s, at, Dot))
         == Some(Found(spec, at + |clause| + |FromText(ws2, ws3, q1, spec, q2)|))
  {
    var e := at + |clause|;
    var r := Found(spec, e + |FromText(ws2, ws3, q1, spec, q2)|);
    RunEndPast(s, at, clause, Dot);
    TailFrom(s, e, ws2, ws3, q1, spec, q2);
    ClauseTails(s, at, clause, ws2, ws3, q1, spec, q2);
    LazyFirst(s, at, e, RunEnd(s, at, Dot), r);
  }

  /** The pattern matched at the start of an import statement. */
  lemma ImportAt(s: string, ws1: string, clause: string,
                 ws2: string, ws3: string, q1: char, spec: string, q2: char)
    requires HasAt(s, 0, "import") && HasAt(s, 6, ws1) && HasAt(s, 6 + |ws1|, clause)
    requires HasAt(s, 6 + |ws1| + |clause|, FromText(ws2, ws3, q1, spec, q2))
    requires |ws1| > 0 && AllIn(ws1, Space)
    requires ClauseOk(clause) && FromParts(ws2, ws3, q1, spec, q2)
    ensures MatchImport(s) == Some(Found(spec, 6 + |ws1| + |clause| + |FromText(ws2, ws3, q1, spec, q2)|))
  {
    FirstAt(s, 6 + |ws1|, clause);
    RunEndAt(s, 6, ws1, Space);
    ClauseLazy(s, 6 + |ws1|, clause, ws2, ws3, q1, spec, q2);
  }

  lemma ImportShape(ws1: string, clause: string, ws2: string, ws3: string, q1: char, spec: string, q2: char)
    ensures var w := ImportText(ws1, clause, ws2, ws3, q1, spec, q2);
      && HasAt(w, 0, "import") && HasAt(w, 6, ws1) && HasAt(w, 6 + |ws1|, clause)
      && HasAt(w, 6 + |ws1| + |clause|, FromText(ws2, ws3, q1, spec, q2))
  {
    var f := FromText(ws2, ws3, q1, spec, q2);
    var w := ImportText(ws1, clause, ws2, ws3, q1, spec, q2);
    HasAtPieces("import", ws1, clause + f);
    HasAtPieces(clause, f, []);
    assert clause + f + [] == clause + f;
    HasAtInner(w, 6 + |ws1|, clause + f, 0, clause);
    HasAtInner(w, 6 + |ws1|, clause + f, |clause|, f);
  }

  lemma ImportPieces(ws1: string, clause: string, ws2: string, ws3: string, q1: char, spec: string, q2: char, rest: string)
    ensures var t := ImportText(ws1, clause, ws2, ws3, q1, spec, q2) + rest;
      && HasAt(t, 0, "import") && HasAt(t, 6, ws1) && HasAt(t, 6 + |ws1|, clause)
      && HasAt(t, 6 + |ws1| + |clause|, FromText(ws2, ws3, q1, spec, q2))
      && |ImportText(ws1, clause, ws2, ws3, q1, spec, q2)| == 6 + |ws1| + |clause| + |FromText(ws2, ws3, q1, spec, q2)|
  {
    var w := ImportText(ws1, clause, ws2, ws3, q1, spec, q2);
    ImportShape(ws1, clause, ws2, ws3, q1, spec, q2);
    HasAtGrow(w, rest, 0, "import");
    HasAtGrow(w, rest, 6, ws1);
    HasAtGrow(w, rest, 6 + |ws1|, clause);
    HasAtGrow(w, rest, 6 + |ws1| + |clause|, FromText(ws2, ws3, q1, spec, q2));
  }

  /** An import statement, whatever follows it, matches exactly up to its closing
      quote and captures its specifier. */
  lemma MatchImportSource(ws1: string, clause: string, ws2: string, ws3: string, q1: char, spec: string, q2: char, rest: string)
    requires |ws1| > 0 && AllIn(ws1, Space)
    requires ClauseOk(clause) && FromParts(ws2, ws3, q1, spec, q2)
    ensures MatchImport(ImportText(ws1, clause, ws2, ws3, q1, spec, q2) + rest)
         == Some(Found(spec, |ImportText(ws1, clause, ws2, ws3, q1, spec, q2)|))
  {
    ImportPieces(ws1, clause, ws2, ws3, q1, spec, q2, rest);
    ImportAt(ImportText(ws1, clause, ws2, ws3, q1, spec, q2) + rest, ws1, clause, ws2, ws3, q1, spec, q2);
  }

  /** `import` overlaps itself nowhere: no proper suffix of it is a prefix, and the
      `i` that starts it occurs nowhere else in it. So text without `import`, followed
      by text that starts with `i`, has no `import` starting in the first part. */
  lemma NoImportAcross(x: string, v: string)
    requires forall p :: 0 <= p < |x| ==> !HasAt(x, p, "import")
    requires |v| > 0 && v[0] == 'i'
    ensures forall p :: 0 <= p < |x| ==> !HasAt(x + v, p, "import")
  {
    var s := x + v;
    forall p | 0 <= p < |x|
      ensures !HasAt(s, p, "import")
    {
      if p + 6 <= |x| {
        assert !HasAt(x, p, "import");
        assert s[p..p + 6] == x[p..p + 6];
      } else if p + 6 <= |s| {
        var k := |x| - p;
        var w := s[p..p + 6];
        assert w[k] == s[|x|] == 'i';
        assert "import"[k] != 'i' by {
          assert "import"[1] == 'm' && "import"[2] == 'p' && "import"[3] == 'o';
          assert "import"[4] == 'r' && "import"[5] == 't';
        }
        assert w != "import";
      }
    }
  }

  /** An import statement after text in which no `import` occurs reports its
      specifier, and the scan continues after its closing quote. */
  lemma ImportReported(x: string, ws1: string, clause: string, ws2: string, ws3: string,
                       q1: char, spec: string, q2: char, rest: string)
    requires forall p :: 0 <= p < |x| ==> !HasAt(x, p, "import")
    requires |ws1| > 0 && AllIn(ws1, Space)
    requires ClauseOk(clause) && FromParts(ws2, ws3, q1, spec, q2)
    ensures ExtractDependencies(x + ImportText(ws1, clause, ws2, ws3, q1, spec, q2) + rest)
         == [spec] + ExtractDependencies(rest)
  {
    var src := ImportText(ws1, clause, ws2, ws3, q1, spec, q2);
    MatchImportSource(ws1, clause, ws2, ws3, q1, spec, q2, rest);
    assert (src + rest)[0] == 'i';
    NoImportAcross(x, src + rest);
    assert x + src + rest == x + (src + rest);
    forall p | 0 <= p < |x|
      ensures MatchImport((x + src + rest)[p..]).None?
    {
      HasAtSuffix(x + src + rest, p, 0, "import");
    }
    DependenciesSplice(x, src, rest, spec);
  }

  /** A single-quoted import on the line after some text, then a line without `f`. */
  lemma SecondImport(c2: string, spec2: string, tail: string)
    requires ClauseOk(c2) && GoodSpec(spec2)
    requires 'f' !in tail
    ensures ExtractDependencies(";\n" + ImportText(" ", c2, " ", " ", '\'', spec2, '\'') + tail) == [spec2]
  {
    assert AllIn(" ", Space);
    WithoutF(tail);
    NoFromNoDeps(tail);
    ImportReported(";\n", " ", c2, " ", " ", '\'', spec2, '\'', tail);
  }

  /** Two single-quoted imports on their own lines, then a line without `f`. */
  lemma TwoImports(c1: string, c2: string, spec1: string, spec2: string, tail: string)
    requires ClauseOk(c1) && ClauseOk(c2) && GoodSpec(spec1) && GoodSpec(spec2)
    requires 'f' !in tail
    ensures ExtractDependencies(ImportText(" ", c1, " ", " ", '\'', spec1, '\'') + ";\n"
                                + ImportText(" ", c2, " ", " ", '\'', spec2, '\'') + tail)
         == [spec1, spec2]
  {
    assert AllIn(" ", Space);
    var first := ImportText(" ", c1, " ", " ", '\'', spec1, '\'');
    var second := ImportText(" ", c2, " ", " ", '\'', spec2, '\'');
    SecondImport(c2, spec2, tail);
    ImportReported("", " ", c1, " ", " ", '\'', spec1, '\'', ";\n" + second + tail);
    Regroup(first, ";\n", second, tail);
  }

  lemma Regroup(a: string, b: string, c: string, d: string)
    ensures a + b + c + d == "" + a + (b + c + d)
  {
  }

  lemma TestClauses()
    ensures ClauseOk("React") && ClauseOk("{ useState }") && GoodSpec("react")
  {
    WithoutF("React");
    WithoutF("{ useState }");
  }

  lemma TestLines()
    ensures ImportText(" ", "React", " ", " ", '\'', "react", '\'') == "import React from 'react'"
    ensures ImportText(" ", "{ useState }", " ", " ", '\'', "react", '\'') == "import { useState } from 'react'"
  {
  }

  /** The three import lines of the compiler's dependency test: both named imports
      report `react`, and the side-effect import of `./styles.css` is not reported. */
  lemma TestImports()
    ensures ExtractDependencies("import React from 'react'" + ";\n"
                                + "import { useState } from 'react'" + ";\nimport './styles.css';")
         == ["react", "react"]
  {
    TestClauses();
    TestLines();
    TwoImports("React", "{ useState }", "react", "react", ";\nimport './styles.css';");
  }

}
