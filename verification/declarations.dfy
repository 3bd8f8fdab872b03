/** The struct, trait and impl passes of src/compiler.ts. None of their patterns is
    anchored by `\b`, so a keyword that ends a longer word (`obstruct`) is rewritten.

    Each pattern is deterministic at a given start position: every greedy run is
    followed by a token its own class cannot start, so giving characters back never
    lets the rest of the pattern match, and the matchers below simply take every run
    whole. */
module Declarations {
  import opened Wrappers
  import opened Chars
  import opened Scan
  import opened Strings
  import opened StructBody

  /** `(\w+)(?:<([^>]+)>)?`: a name and the generic parameter list written after it. */
  datatype Head = Head(name: string, generics: Option<string>, end: nat)

  predicate ValidGenerics(g: Option<string>) {
    g.None? || (|g.value| > 0 && AllIn(g.value, NotChar('>')))
  }

  /** The name and generics at `i`. When `<` follows the name the group must match,
      since without it every pattern here would need white space or `{` where `<` is. */
  function NameAndGenerics(s: string, i: nat): (h: Option<Head>)
    requires i <= |s|
    ensures h.Some? ==> i < h.value.end <= |s|
    ensures h.Some? ==> |h.value.name| > 0 && AllIn(h.value.name, Word)
    ensures h.Some? ==> ValidGenerics(h.value.generics)
  {
    var n := RunEnd(s, i, Word);
    RunEndSpec(s, i, Word);
    if n == i then None
    else if n < |s| && s[n] == '<' then
      var c := RunEnd(s, n + 1, NotChar('>'));
      RunEndSpec(s, n + 1, NotChar('>'));
      if c == n + 1 || c == |s| then None
      else Some(Head(s[i..n], Some(s[n + 1..c]), c + 1))
    else Some(Head(s[i..n], None, n))
  }

  /** `generics ? `<${generics}>` : ''`: an absent or empty capture is falsy. */
  function GenericPart(g: Option<string>): string {
    if g.Some? && g.value != [] then "<" + g.value + ">" else ""
  }

  /** `\s*\{([^}]+)\}` at `j`: the body, up to the first closing brace and never
      empty, and the position after that brace. */
  function Braced(s: string, j: nat): (b: Option<(string, nat)>)
    requires j <= |s|
    ensures b.Some? ==> j < b.value.1 <= |s| && s[b.value.1 - 1] == '}'
    ensures b.Some? ==> |b.value.0| > 0 && AllIn(b.value.0, NotChar('}'))
  {
    var o := RunEnd(s, j, Space);
    if o < |s| && s[o] == '{' then
      var c := RunEnd(s, o + 1, NotChar('}'));
      RunEndSpec(s, o + 1, NotChar('}'));
      if c == o + 1 || c == |s| then None
      else
        AllInSlice(s, o + 1, c, NotChar('}'));
        Some((s[o + 1..c], c + 1))
    else None
  }

  /** `kw\s+` at `i`: the position after the white space. */
  function Keyword(s: string, i: nat, kw: string): (k: Option<nat>)
    ensures k.Some? ==> HasAt(s, i, kw) && i + |kw| < k.value <= |s|
  {
    if HasAt(s, i, kw) then
      var e := RunEnd(s, i + |kw|, Space);
      if e > i + |kw| then Some(e) else None
    else None
  }

  /** A struct or trait declaration as the pattern captures it; `len` is the length of
      the whole match. */
  datatype Decl = Decl(name: string, generics: Option<string>, body: string, len: nat)

  /** `kw\s+(\w+)(?:<([^>]+)>)?\s*\{([^}]+)\}` at the start of `s`, the pattern shared
      by the struct pass (`kw` = `struct`) and the trait pass (`kw` = `trait`). The
      pattern never looks behind where it starts, so a matcher sees only the text from
      there on. */
  function MatchNamed(s: string, kw: string): (d: Option<Decl>)
    ensures d.Some? ==> HasAt(s, 0, kw) && |kw| < d.value.len <= |s|
    ensures d.Some? ==> s[d.value.len - 1] == '}'
    ensures d.Some? ==> |d.value.name| > 0 && AllIn(d.value.name, Word)
    ensures d.Some? ==> ValidGenerics(d.value.generics)
    ensures d.Some? ==> |d.value.body| > 0 && AllIn(d.value.body, NotChar('}'))
  {
    match Keyword(s, 0, kw)
    case None => None
    case Some(a) =>
      match NameAndGenerics(s, a)
      case None => None
      case Some(h) =>
        match Braced(s, h.end)
        case None => None
        case Some(b) => Some(Decl(h.name, h.generics, b.0, b.1))
  }

  /** An impl block as the pattern captures it. */
  datatype ImplDecl = ImplDecl(traitName: string, generics: Option<string>, structName: string,
                               body: string, len: nat)

  /** `\s+for\s+(\w+)` at `j`: the implementing type's name and the position after it. */
  function ForTarget(s: string, j: nat): (t: Option<(string, nat)>)
    requires j <= |s|
    ensures t.Some? ==> j < t.value.1 <= |s|
    ensures t.Some? ==> |t.value.0| > 0 && AllIn(t.value.0, Word)
  {
    var f := RunEnd(s, j, Space);
    if f == j then None
    else
      match Keyword(s, f, "for")
      case None => None
      case Some(n) =>
        var m := RunEnd(s, n, Word);
        RunEndSpec(s, n, Word);
        if m == n then None else Some((s[n..m], m))
  }

  /** `\s+for\s+(\w+)\s*\{([^}]+)\}` at `j`: the implementing type, the body and the
      position after the closing brace. */
  function TargetBlock(s: string, j: nat): (r: Option<(string, string, nat)>)
    requires j <= |s|
    ensures r.Some? ==> j < r.value.2 <= |s| && s[r.value.2 - 1] == '}'
    ensures r.Some? ==> |r.value.0| > 0 && AllIn(r.value.0, Word)
    ensures r.Some? ==> |r.value.1| > 0 && AllIn(r.value.1, NotChar('}'))
  {
    match ForTarget(s, j)
    case None => None
    case Some(t) =>
      match Braced(s, t.1)
      case None => None
      case Some(b) => Some((t.0, b.0, b.1))
  }

  /** `impl\s+(\w+)(?:<([^>]+)>)?\s+for\s+(\w+)\s*\{([^}]+)\}` at the start of `s`. */
  function MatchImpl(s: string): (d: Option<ImplDecl>)
    ensures d.Some? ==> HasAt(s, 0, "impl") && 4 < d.value.len <= |s|
    ensures d.Some? ==> s[d.value.len - 1] == '}'
    ensures d.Some? ==> |d.value.traitName| > 0 && AllIn(d.value.traitName, Word)
    ensures d.Some? ==> |d.value.structName| > 0 && AllIn(d.value.structName, Word)
    ensures d.Some? ==> ValidGenerics(d.value.generics)
    ensures d.Some? ==> |d.value.body| > 0 && AllIn(d.value.body, NotChar('}'))
  {
    match Keyword(s, 0, "impl")
    case None => None
    case Some(a) =>
      match NameAndGenerics(s, a)
      case None => None
      case Some(h) =>
        match TargetBlock(s, h.end)
        case None => None
        case Some(t) => Some(ImplDecl(h.name, h.generics, t.0, t.1, t.2))
  }

  /** src/compiler.ts:108 */
  function RenderStruct(d: Decl): string {
    "type " + d.name + GenericPart(d.generics) + " = {\n  " + TypeBody(d.body) + "\n};"
  }

  /** src/compiler.ts:117 */
  function RenderTrait(d: Decl): string {
    "interface " + d.name + GenericPart(d.generics) + " {\n" + d.body + "\n}"
  }

  /** src/compiler.ts:125-127 */
  function RenderImpl(d: ImplDecl): string {
    var g := GenericPart(d.generics);
    "class " + d.structName + d.traitName + "Impl" + g + " implements " + d.traitName + g
    + " {\n  constructor(private data: " + d.structName + ") {}\n" + d.body + "\n}"
  }

  function StructRule(s: string, i: nat): Option<Hit> {
    if i > |s| then None
    else match MatchNamed(s[i..], "struct")
      case None => None
      case Some(d) => Some(Hit(d.len, RenderStruct(d)))
  }

  function TraitRule(s: string, i: nat): Option<Hit> {
    if i > |s| then None
    else match MatchNamed(s[i..], "trait")
      case None => None
      case Some(d) => Some(Hit(d.len, RenderTrait(d)))
  }

  function ImplRule(s: string, i: nat): Option<Hit> {
    if i > |s| then None
    else match MatchImpl(s[i..])
      case None => None
      case Some(d) => Some(Hit(d.len, RenderImpl(d)))
  }

  function StructPass(s: string): string {
    ReplaceAll(StructRule, s)
  }

  function TraitPass(s: string): string {
    ReplaceAll(TraitRule, s)
  }

  function ImplPass(s: string): string {
    ReplaceAll(ImplRule, s)
  }

  // ---------------------------------------------------------------------------
  // Each piece of a declaration written out is read back by its matcher. The pieces
  // are located by position, so that no proof has to regroup a long concatenation.

  lemma KeywordAt(s: string, i: nat, kw: string, ws: string)
    requires HasAt(s, i, kw) && HasAt(s, i + |kw|, ws) && |ws| > 0 && AllIn(ws, Space)
    requires var e := i + |kw| + |ws|; e == |s| || !IsSpace(s[e])
    ensures Keyword(s, i, kw) == Some(i + |kw| + |ws|)
  {
    RunEndAt(s, i + |kw|, ws, Space);
  }

  lemma NameAt(s: string, i: nat, name: string)
    requires HasAt(s, i, name) && |name| > 0 && AllIn(name, Word)
    requires var e := i + |name|; e == |s| || (!IsWord(s[e]) && s[e] != '<')
    ensures NameAndGenerics(s, i) == Some(Head(name, None, i + |name|))
  {
    RunEndAt(s, i, name, Word);
  }

  lemma GenericsAt(s: string, i: nat, name: string, g: string)
    requires HasAt(s, i, name) && |name| > 0 && AllIn(name, Word)
    requires HasAt(s, i + |name|, "<" + g + ">") && |g| > 0 && AllIn(g, NotChar('>'))
    ensures NameAndGenerics(s, i) == Some(Head(name, Some(g), i + |name| + |g| + 2))
  {
    var n := i + |name|;
    var w := "<" + g + ">";
    assert s[n..n + |w|] == w;
    assert s[n] == w[0] == '<';
    RunEndAt(s, i, name, Word);
    assert HasAt(w, 1, g) by {
      assert w[1..1 + |g|] == g;
    }
    HasAtInner(s, n, w, 1, g);
    assert s[n + 1 + |g|] == w[1 + |g|] == '>';
    RunEndAt(s, n + 1, g, NotChar('>'));
  }

  lemma BracedAt(s: string, i: nat, o: nat, ws: string, body: string)
    requires HasAt(s, i, ws) && AllIn(ws, Space) && o == i + |ws|
    requires HasAt(s, o, Block(body)) && |body| > 0 && AllIn(body, NotChar('}'))
    ensures Braced(s, i) == Some((body, o + |body| + 2))
  {
    var w := Block(body);
    assert s[o..o + |w|] == w;
    assert s[o] == w[0] == '{';
    RunEndAt(s, i, ws, Space);
    assert HasAt(w, 1, body) by {
      assert w[1..1 + |body|] == body;
    }
    HasAtInner(s, o, w, 1, body);
    assert s[o + 1 + |body|] == w[1 + |body|] == '}';
    RunEndAt(s, o + 1, body, NotChar('}'));
  }

  lemma ForTargetAt(s: string, j: nat, ws2: string, ws3: string, name: string)
    requires HasAt(s, j, ws2) && |ws2| > 0 && AllIn(ws2, Space)
    requires HasAt(s, j + |ws2|, "for") && HasAt(s, j + |ws2| + 3, ws3) && |ws3| > 0 && AllIn(ws3, Space)
    requires HasAt(s, j + |ws2| + 3 + |ws3|, name) && |name| > 0 && AllIn(name, Word)
    requires var e := j + |ws2| + 3 + |ws3| + |name|; e == |s| || !IsWord(s[e])
    ensures ForTarget(s, j) == Some((name, j + |ws2| + 3 + |ws3| + |name|))
  {
    var f := j + |ws2|;
    var n := f + 3 + |ws3|;
    FirstAt(s, f, "for");
    RunEndAt(s, j, ws2, Space);
    FirstAt(s, n, name);
    KeywordAt(s, f, "for", ws3);
    RunEndAt(s, n, name, Word);
  }

  /** `{body}` */
  function Block(body: string): string {
    "{" + body + "}"
  }

  /** The pieces a struct or trait declaration is written from: the keyword's white
      space, the name, the optional generics, the white space before the brace and
      the body. */
  predicate NamedParts(ws1: string, name: string, gen: Option<string>, ws2: string, body: string) {
    && |ws1| > 0 && AllIn(ws1, Space)
    && |name| > 0 && AllIn(name, Word)
    && ValidGenerics(gen)
    && AllIn(ws2, Space)
    && |body| > 0 && AllIn(body, NotChar('}'))
  }

  function NamedSource(kw: string, ws1: string, name: string, gen: Option<string>, ws2: string,
                       body: string): string {
    kw + ws1 + name + GenericPart(gen) + ws2 + Block(body)
  }

  /** Reading a written-out declaration gives back its name, generics and body, and
      the match spans the whole declaration, whatever follows it. */
  lemma MatchNamedSource(kw: string, ws1: string, name: string, gen: Option<string>, ws2: string,
                         body: string, rest: string)
    requires NamedParts(ws1, name, gen, ws2, body)
    ensures var src := NamedSource(kw, ws1, name, gen, ws2, body);
      MatchNamed(src + rest, kw) == Some(Decl(name, gen, body, |src|))
  {
    var src := NamedSource(kw, ws1, name, gen, ws2, body);
    NamedSourcePieces(kw, ws1, name, gen, ws2, body, rest);
    NamedSourceLen(kw, ws1, name, gen, ws2, body);
    var a := |kw| + |ws1|;
    var e := a + |name| + |GenericPart(gen)|;
    NamedAt(src + rest, kw, ws1, name, gen, ws2, body, a, e, e + |ws2|, |src|);
  }

  /** Where each piece of a written-out declaration sits. */
  lemma NamedSourcePieces(kw: string, ws1: string, name: string, gen: Option<string>, ws2: string,
                          body: string, rest: string)
    ensures var s := NamedSource(kw, ws1, name, gen, ws2, body) + rest;
      var a := |kw| + |ws1|; var e := a + |name| + |GenericPart(gen)|;
      && HasAt(s, 0, kw) && HasAt(s, |kw|, ws1) && HasAt(s, a, name)
      && HasAt(s, a + |name|, GenericPart(gen)) && HasAt(s, e, ws2) && HasAt(s, e + |ws2|, Block(body))
  {
    var g := GenericPart(gen);
    var p1 := kw;
    var p2 := p1 + ws1;
    var p3 := p2 + name;
    var p4 := p3 + g;
    var p5 := p4 + ws2;
    var p6 := p5 + Block(body);
    var s := p6 + rest;
    assert HasAt(s, 0, kw) by {
      HasAtOver([], kw, []);
      assert [] + kw == p1;
      HasAtGrow(p1, ws1, 0, kw); HasAtGrow(p2, name, 0, kw); HasAtGrow(p3, g, 0, kw);
      HasAtGrow(p4, ws2, 0, kw); HasAtGrow(p5, Block(body), 0, kw); HasAtGrow(p6, rest, 0, kw);
    }
    assert HasAt(s, |p1|, ws1) by {
      HasAtOver(p1, ws1, []);
      HasAtGrow(p2, name, |p1|, ws1); HasAtGrow(p3, g, |p1|, ws1);
      HasAtGrow(p4, ws2, |p1|, ws1); HasAtGrow(p5, Block(body), |p1|, ws1); HasAtGrow(p6, rest, |p1|, ws1);
    }
    assert HasAt(s, |p2|, name) by {
      HasAtOver(p2, name, []);
      HasAtGrow(p3, g, |p2|, name);
      HasAtGrow(p4, ws2, |p2|, name); HasAtGrow(p5, Block(body), |p2|, name); HasAtGrow(p6, rest, |p2|, name);
    }
    assert HasAt(s, |p3|, g) by {
      HasAtOver(p3, g, []);
      HasAtGrow(p4, ws2, |p3|, g); HasAtGrow(p5, Block(body), |p3|, g); HasAtGrow(p6, rest, |p3|, g);
    }
    assert HasAt(s, |p4|, ws2) by {
      HasAtOver(p4, ws2, []);
      HasAtGrow(p5, Block(body), |p4|, ws2); HasAtGrow(p6, rest, |p4|, ws2);
    }
    assert HasAt(s, |p5|, Block(body)) by {
      HasAtOver(p5, Block(body), []);
      HasAtGrow(p6, rest, |p5|, Block(body));
    }
  }

  lemma NamedSourceLen(kw: string, ws1: string, name: string, gen: Option<string>, ws2: string, body: string)
    ensures |NamedSource(kw, ws1, name, gen, ws2, body)|
         == |kw| + |ws1| + |name| + |GenericPart(gen)| + |ws2| + |body| + 2
  {
  }

  /** A declaration laid out piece by piece from the start of `s`: the name at `a`,
      the white space at `e`, the block at `o`, and the end at `z`. */
  lemma NamedAt(s: string, kw: string, ws1: string, name: string, gen: Option<string>, ws2: string,
                body: string, a: nat, e: nat, o: nat, z: nat)
    requires NamedParts(ws1, name, gen, ws2, body)
    requires a == |kw| + |ws1| && e == a + |name| + |GenericPart(gen)| && o == e + |ws2| && z == o + |body| + 2
    requires && HasAt(s, 0, kw) && HasAt(s, |kw|, ws1) && HasAt(s, a, name)
             && HasAt(s, a + |name|, GenericPart(gen)) && HasAt(s, e, ws2) && HasAt(s, o, Block(body))
    ensures MatchNamed(s, kw) == Some(Decl(name, gen, body, z))
  {
    NamedPiecesRead(s, kw, ws1, name, gen, ws2, body, a, e, o);
    BracedAt(s, e, o, ws2, body);
    NamedFrom(s, kw, a, Head(name, gen, e), (body, z));
  }

  /** The keyword and the head, each read where it was written. */
  lemma NamedPiecesRead(s: string, kw: string, ws1: string, name: string, gen: Option<string>, ws2: string,
                        body: string, a: nat, e: nat, o: nat)
    requires NamedParts(ws1, name, gen, ws2, body)
    requires a == |kw| + |ws1| && e == a + |name| + |GenericPart(gen)| && o == e + |ws2|
    requires && HasAt(s, 0, kw) && HasAt(s, |kw|, ws1) && HasAt(s, a, name)
             && HasAt(s, a + |name|, GenericPart(gen)) && HasAt(s, e, ws2) && HasAt(s, o, Block(body))
    ensures Keyword(s, 0, kw) == Some(a)
    ensures NameAndGenerics(s, a) == Some(Head(name, gen, e))
  {
    KeywordBeforeName(s, kw, ws1, name);
    HeadAt(s, a, name, gen, ws2, body);
  }

  lemma KeywordBeforeName(s: string, kw: string, ws1: string, name: string)
    requires |ws1| > 0 && AllIn(ws1, Space) && |name| > 0 && AllIn(name, Word)
    requires HasAt(s, 0, kw) && HasAt(s, |kw|, ws1) && HasAt(s, |kw| + |ws1|, name)
    ensures Keyword(s, 0, kw) == Some(|kw| + |ws1|)
  {
    FirstAt(s, |kw| + |ws1|, name);
    KeywordAt(s, 0, kw, ws1);
  }

  /** The name and generics, followed by white space and the body. */
  lemma HeadAt(s: string, a: nat, name: string, gen: Option<string>, ws2: string, body: string)
    requires |name| > 0 && AllIn(name, Word) && ValidGenerics(gen) && AllIn(ws2, Space)
    requires var e := a + |name| + |GenericPart(gen)|;
      && HasAt(s, a, name) && HasAt(s, a + |name|, GenericPart(gen))
      && HasAt(s, e, ws2) && HasAt(s, e + |ws2|, Block(body))
    ensures NameAndGenerics(s, a) == Some(Head(name, gen, a + |name| + |GenericPart(gen)|))
  {
    match gen
    case Some(g) =>
      GenericsAt(s, a, name, g);
    case None =>
      var e := a + |name|;
      FirstAt(s, e + |ws2|, Block(body));
      if ws2 != [] {
        FirstAt(s, e, ws2);
      }
      NameAt(s, a, name);
  }

  /** A struct or trait match assembled from its three parts. */
  lemma NamedFrom(s: string, kw: string, a: nat, h: Head, b: (string, nat))
    requires Keyword(s, 0, kw) == Some(a)
    requires NameAndGenerics(s, a) == Some(h)
    requires Braced(s, h.end) == Some(b)
    ensures MatchNamed(s, kw) == Some(Decl(h.name, h.generics, b.0, b.1))
  {
  }

  /** The pieces of an impl block. */
  predicate ImplParts(ws1: string, traitName: string, gen: Option<string>, ws2: string, ws3: string,
                      structName: string, ws4: string, body: string) {
    && |ws1| > 0 && AllIn(ws1, Space)
    && |traitName| > 0 && AllIn(traitName, Word)
    && ValidGenerics(gen)
    && ForParts(ws2, ws3, structName, ws4, body)
  }

  /** The pieces from the white space before `for` to the end of the body. */
  predicate ForParts(ws2: string, ws3: string, structName: string, ws4: string, body: string) {
    && |ws2| > 0 && AllIn(ws2, Space)
    && |ws3| > 0 && AllIn(ws3, Space)
    && |structName| > 0 && AllIn(structName, Word)
    && AllIn(ws4, Space)
    && |body| > 0 && AllIn(body, NotChar('}'))
  }

  /** `impl T<G>` */
  function ImplHead(ws1: string, traitName: string, gen: Option<string>): string {
    "impl" + ws1 + traitName + GenericPart(gen)
  }

  /** ` for S { body }` */
  function ForBlock(ws2: string, ws3: string, structName: string, ws4: string, body: string): string {
    ws2 + "for" + ws3 + structName + ws4 + Block(body)
  }

  function ImplSource(ws1: string, traitName: string, gen: Option<string>, ws2: string, ws3: string,
                      structName: string, ws4: string, body: string): string {
    ImplHead(ws1, traitName, gen) + ForBlock(ws2, ws3, structName, ws4, body)
  }

  /** Reading a written-out impl block gives back both names, the generics and the
      body, and the match spans the whole block, whatever follows it. */
  lemma MatchImplSource(ws1: string, traitName: string, gen: Option<string>, ws2: string, ws3: string,
                        structName: string, ws4: string, body: string, rest: string)
    requires ImplParts(ws1, traitName, gen, ws2, ws3, structName, ws4, body)
    ensures var src := ImplSource(ws1, traitName, gen, ws2, ws3, structName, ws4, body);
      MatchImpl(src + rest) == Some(ImplDecl(traitName, gen, structName, body, |src|))
  {
    var s := ImplSource(ws1, traitName, gen, ws2, ws3, structName, ws4, body) + rest;
    ImplSourcePieces(ws1, traitName, gen, ws2, ws3, structName, ws4, body, rest);
    ImplAt(s, ws1, traitName, gen, ws2, ws3, structName, ws4, body);
  }

  lemma ImplSourcePieces(ws1: string, traitName: string, gen: Option<string>, ws2: string, ws3: string,
                         structName: string, ws4: string, body: string, rest: string)
    ensures var head := ImplHead(ws1, traitName, gen);
      var s := ImplSource(ws1, traitName, gen, ws2, ws3, structName, ws4, body) + rest;
      HasAt(s, 0, head) && HasAt(s, |head|, ForBlock(ws2, ws3, structName, ws4, body))
  {
    var head := ImplHead(ws1, traitName, gen);
    var tail := ForBlock(ws2, ws3, structName, ws4, body);
    var s := head + tail + rest;
    HasAtOver([], head, tail + rest);
    assert [] + head + (tail + rest) == s;
    HasAtOver(head, tail, rest);
  }

  /** An impl block laid out from the start of `s`. */
  lemma ImplAt(s: string, ws1: string, traitName: string, gen: Option<string>, ws2: string, ws3: string,
               structName: string, ws4: string, body: string)
    requires ImplParts(ws1, traitName, gen, ws2, ws3, structName, ws4, body)
    requires HasAt(s, 0, ImplHead(ws1, traitName, gen))
    requires HasAt(s, |ImplHead(ws1, traitName, gen)|, ForBlock(ws2, ws3, structName, ws4, body))
    ensures MatchImpl(s) == Some(ImplDecl(traitName, gen, structName, body,
      |ImplSource(ws1, traitName, gen, ws2, ws3, structName, ws4, body)|))
  {
    var e := |ImplHead(ws1, traitName, gen)|;
    var tail := ForBlock(ws2, ws3, structName, ws4, body);
    ImplPiecesRead(s, ws1, traitName, gen, ws2, ws3, structName, ws4, body);
    ForBlockAt(s, e, ws2, ws3, structName, ws4, body);
    ImplFrom(s, 4 + |ws1|, Head(traitName, gen, e), (structName, body, e + |tail|));
  }

  /** The keyword, the head and the target block, each read where it was written. */
  lemma ImplPiecesRead(s: string, ws1: string, traitName: string, gen: Option<string>, ws2: string, ws3: string,
                       structName: string, ws4: string, body: string)
    requires ImplParts(ws1, traitName, gen, ws2, ws3, structName, ws4, body)
    requires HasAt(s, 0, ImplHead(ws1, traitName, gen))
    requires HasAt(s, |ImplHead(ws1, traitName, gen)|, ForBlock(ws2, ws3, structName, ws4, body))
    ensures var e := |ImplHead(ws1, traitName, gen)|;
      && Keyword(s, 0, "impl") == Some(4 + |ws1|)
      && NameAndGenerics(s, 4 + |ws1|) == Some(Head(traitName, gen, e))
  {
    var e := |ImplHead(ws1, traitName, gen)|;
    ForBlockLift(s, e, ws2, ws3, structName, ws4, body);
    ImplHeadAt(s, ws1, traitName, gen, ws2);
  }

  /** The keyword, the trait name and the generics, followed by white space. */
  lemma ImplHeadAt(s: string, ws1: string, traitName: string, gen: Option<string>, ws2: string)
    requires |ws1| > 0 && AllIn(ws1, Space) && |traitName| > 0 && AllIn(traitName, Word)
    requires ValidGenerics(gen) && |ws2| > 0 && AllIn(ws2, Space)
    requires HasAt(s, 0, ImplHead(ws1, traitName, gen))
    requires HasAt(s, |ImplHead(ws1, traitName, gen)|, ws2)
    ensures Keyword(s, 0, "impl") == Some(4 + |ws1|)
    ensures NameAndGenerics(s, 4 + |ws1|) == Some(Head(traitName, gen, |ImplHead(ws1, traitName, gen)|))
  {
    var g := GenericPart(gen);
    var w := ImplHead(ws1, traitName, gen);
    var a := 4 + |ws1|;
    ImplHeadPieces(ws1, traitName, gen);
    HasAtInner(s, 0, w, 0, "impl");
    HasAtInner(s, 0, w, 4, ws1);
    HasAtInner(s, 0, w, a, traitName);
    HasAtInner(s, 0, w, a + |traitName|, g);
    KeywordBeforeName(s, "impl", ws1, traitName);
    match gen
    case Some(x) =>
      GenericsAt(s, a, traitName, x);
    case None =>
      FirstAt(s, |w|, ws2);
      NameAt(s, a, traitName);
  }

  lemma ImplHeadPieces(ws1: string, traitName: string, gen: Option<string>)
    ensures var w := ImplHead(ws1, traitName, gen); var a := 4 + |ws1|;
      && HasAt(w, 0, "impl") && HasAt(w, 4, ws1) && HasAt(w, a, traitName)
      && HasAt(w, a + |traitName|, GenericPart(gen)) && |w| == a + |traitName| + |GenericPart(gen)|
  {
    var g := GenericPart(gen);
    var p1 := "impl";
    var p2 := p1 + ws1;
    var p3 := p2 + traitName;
    var w := p3 + g;
    assert HasAt(w, 0, "impl") by {
      HasAtOver([], "impl", []);
      assert [] + "impl" == p1;
      HasAtGrow(p1, ws1, 0, "impl");
      HasAtGrow(p2, traitName, 0, "impl");
      HasAtGrow(p3, g, 0, "impl");
    }
    assert HasAt(w, 4, ws1) by {
      HasAtOver(p1, ws1, []);
      HasAtGrow(p2, traitName, 4, ws1);
      HasAtGrow(p3, g, 4, ws1);
    }
    assert HasAt(w, |p2|, traitName) by {
      HasAtOver(p2, traitName, []);
      HasAtGrow(p3, g, |p2|, traitName);
    }
    HasAtOver(p3, g, []);
  }

  /** ` for S { body }` laid out at `j`. */
  lemma ForBlockAt(s: string, j: nat, ws2: string, ws3: string, structName: string, ws4: string, body: string)
    requires ForParts(ws2, ws3, structName, ws4, body)
    requires HasAt(s, j, ForBlock(ws2, ws3, structName, ws4, body))
    ensures TargetBlock(s, j) == Some((structName, body, j + |ForBlock(ws2, ws3, structName, ws4, body)|))
  {
    var m := j + |ws2| + 3 + |ws3| + |structName|;
    var o := m + |ws4|;
    var z := j + |ForBlock(ws2, ws3, structName, ws4, body)|;
    ForBlockLift(s, j, ws2, ws3, structName, ws4, body);
    ForBlockLen(j, o, ws2, ws3, structName, ws4, body);
    var r := TargetBlock(s, j);
    ForPiecesAt(s, j, m, o, z, ws2, ws3, structName, ws4, body);
    assert r == Some((structName, body, z));
  }

  lemma ForBlockLen(j: nat, o: nat, ws2: string, ws3: string, structName: string, ws4: string, body: string)
    requires o == j + |ws2| + 3 + |ws3| + |structName| + |ws4|
    ensures j + |ForBlock(ws2, ws3, structName, ws4, body)| == o + |body| + 2
  {
  }

  lemma ForPiecesAt(s: string, j: nat, m: nat, o: nat, z: nat,
                    ws2: string, ws3: string, structName: string, ws4: string, body: string)
    requires ForParts(ws2, ws3, structName, ws4, body)
    requires m == j + |ws2| + 3 + |ws3| + |structName| && o == m + |ws4| && z == o + |body| + 2
    requires && HasAt(s, j, ws2) && HasAt(s, j + |ws2|, "for") && HasAt(s, j + |ws2| + 3, ws3)
             && HasAt(s, j + |ws2| + 3 + |ws3|, structName) && HasAt(s, m, ws4) && HasAt(s, o, Block(body))
    ensures TargetBlock(s, j) == Some((structName, body, z))
  {
    BeforeBlock(s, m, o, ws4, body);
    ForTargetAt(s, j, ws2, ws3, structName);
    BracedAt(s, m, o, ws4, body);
    TargetBlockFrom(s, j, (structName, m), (body, z));
  }

  /** White space and then a block: no word character where they start. */
  lemma BeforeBlock(s: string, m: nat, o: nat, ws: string, body: string)
    requires HasAt(s, m, ws) && AllIn(ws, Space) && o == m + |ws| && HasAt(s, o, Block(body))
    ensures m < |s| && !IsWord(s[m])
  {
    FirstAt(s, o, Block(body));
    if ws != [] {
      FirstAt(s, m, ws);
      assert IsSpace(ws[0]);
    }
  }

  lemma ForBlockLift(s: string, j: nat, ws2: string, ws3: string, structName: string, ws4: string, body: string)
    requires HasAt(s, j, ForBlock(ws2, ws3, structName, ws4, body))
    ensures var n := j + |ws2| + 3 + |ws3|; var m := n + |structName|;
      && HasAt(s, j, ws2) && HasAt(s, j + |ws2|, "for") && HasAt(s, j + |ws2| + 3, ws3)
      && HasAt(s, n, structName) && HasAt(s, m, ws4) && HasAt(s, m + |ws4|, Block(body))
  {
    var w := ForBlock(ws2, ws3, structName, ws4, body);
    var q3 := ws2 + "for" + ws3;
    var q4 := q3 + structName;
    ForBlockPieces(ws2, ws3, structName, ws4, body);
    HasAtInner(s, j, w, 0, ws2);
    HasAtInner(s, j, w, |ws2|, "for");
    HasAtInner(s, j, w, |ws2| + 3, ws3);
    HasAtInner(s, j, w, |q3|, structName);
    HasAtInner(s, j, w, |q4|, ws4);
    HasAtInner(s, j, w, |q4 + ws4|, Block(body));
  }

  lemma ForBlockPieces(ws2: string, ws3: string, structName: string, ws4: string, body: string)
    ensures var w := ForBlock(ws2, ws3, structName, ws4, body);
      var q3 := ws2 + "for" + ws3; var q4 := q3 + structName;
      && HasAt(w, 0, ws2) && HasAt(w, |ws2|, "for") && HasAt(w, |ws2| + 3, ws3)
      && HasAt(w, |q3|, structName) && HasAt(w, |q4|, ws4) && HasAt(w, |q4 + ws4|, Block(body))
  {
    var q1 := ws2;
    var q2 := q1 + "for";
    var q3 := q2 + ws3;
    var q4 := q3 + structName;
    var q5 := q4 + ws4;
    var b := Block(body);
    assert HasAt(q5 + b, 0, ws2) by {
      HasAtOver([], ws2, []);
      assert [] + ws2 == q1;
      Grown(q1, "for", ws3, structName, ws4, b, 0, ws2);
    }
    assert HasAt(q5 + b, |q1|, "for") by {
      HasAtOver(q1, "for", []);
      Grown(q2, ws3, structName, ws4, b, [], |q1|, "for");
    }
    assert HasAt(q5 + b, |q2|, ws3) by {
      HasAtOver(q2, ws3, []);
      Grown(q3, structName, ws4, b, [], [], |q2|, ws3);
    }
    assert HasAt(q5 + b, |q3|, structName) by {
      HasAtOver(q3, structName, []);
      Grown(q4, ws4, b, [], [], [], |q3|, structName);
    }
    assert HasAt(q5 + b, |q4|, ws4) by {
      HasAtOver(q4, ws4, []);
      HasAtGrow(q5, b, |q4|, ws4);
    }
    HasAtOver(q5, b, []);
  }

  /** An occurrence survives five appended pieces. */
  lemma Grown(x: string, a: string, b: string, c: string, d: string, e: string, i: nat, w: string)
    requires HasAt(x, i, w)
    ensures HasAt(x + a + b + c + d + e, i, w)
  {
    HasAtGrow(x, a, i, w);
    HasAtGrow(x + a, b, i, w);
    HasAtGrow(x + a + b, c, i, w);
    HasAtGrow(x + a + b + c, d, i, w);
    HasAtGrow(x + a + b + c + d, e, i, w);
  }

  /** An impl match assembled from its three parts. */
  lemma ImplFrom(s: string, a: nat, h: Head, t: (string, string, nat))
    requires Keyword(s, 0, "impl") == Some(a)
    requires NameAndGenerics(s, a) == Some(h)
    requires TargetBlock(s, h.end) == Some(t)
    ensures MatchImpl(s) == Some(ImplDecl(h.name, h.generics, t.0, t.1, t.2))
  {
  }

  /** The `for` clause and the body assembled. */
  lemma TargetBlockFrom(s: string, j: nat, t: (string, nat), b: (string, nat))
    requires j <= |s|
    requires ForTarget(s, j) == Some(t) && Braced(s, t.1) == Some(b)
    ensures TargetBlock(s, j) == Some((t.0, b.0, b.1))
  {
  }

  // ---------------------------------------------------------------------------
  // The passes.

  lemma SuffixShift(x: string, t: string, p: nat)
    requires p <= |t|
    ensures (x + t)[|x| + p..] == t[p..]
  {
  }

  /** The rules read only the text from their start position on. */
  lemma RulesShift(x: string, t: string, p: nat)
    requires p <= |t|
    ensures StructRule(x + t, |x| + p) == StructRule(t, p)
    ensures TraitRule(x + t, |x| + p) == TraitRule(t, p)
    ensures ImplRule(x + t, |x| + p) == ImplRule(t, p)
  {
    SuffixShift(x, t, p);
  }

  /** The hypotheses of `Scan.Splice` that say a rule does not look behind it. */
  lemma SpliceShifts(x: string, src: string, rest: string)
    ensures forall p :: 0 <= p <= |src + rest| ==> StructRule(x + (src + rest), |x| + p) == StructRule(src + rest, p)
    ensures forall p :: 0 <= p <= |rest| ==> StructRule(src + rest, |src| + p) == StructRule(rest, p)
    ensures forall p :: 0 <= p <= |src + rest| ==> TraitRule(x + (src + rest), |x| + p) == TraitRule(src + rest, p)
    ensures forall p :: 0 <= p <= |rest| ==> TraitRule(src + rest, |src| + p) == TraitRule(rest, p)
    ensures forall p :: 0 <= p <= |src + rest| ==> ImplRule(x + (src + rest), |x| + p) == ImplRule(src + rest, p)
    ensures forall p :: 0 <= p <= |rest| ==> ImplRule(src + rest, |src| + p) == ImplRule(rest, p)
  {
    forall p | 0 <= p <= |src + rest| {
      RulesShift(x, src + rest, p);
    }
    forall p | 0 <= p <= |rest| {
      RulesShift(src, rest, p);
    }
  }

  /** A declaration the struct rule matches at the start of `src + rest`, spanning
      exactly `src`, is replaced in place. */
  lemma StructSplice(x: string, src: string, rest: string, d: Decl)
    requires MatchNamed(src + rest, "struct") == Some(d) && d.len == |src|
    requires forall p :: 0 <= p < |x| ==> StructRule(x + src + rest, p).None?
    ensures StructPass(x + src + rest) == x + RenderStruct(d) + StructPass(rest)
  {
    assert (src + rest)[0..] == src + rest;
    SpliceShifts(x, src, rest);
    Splice(StructRule, x, src, rest, RenderStruct(d));
  }

  lemma TraitSplice(x: string, src: string, rest: string, d: Decl)
    requires MatchNamed(src + rest, "trait") == Some(d) && d.len == |src|
    requires forall p :: 0 <= p < |x| ==> TraitRule(x + src + rest, p).None?
    ensures TraitPass(x + src + rest) == x + RenderTrait(d) + TraitPass(rest)
  {
    assert (src + rest)[0..] == src + rest;
    SpliceShifts(x, src, rest);
    Splice(TraitRule, x, src, rest, RenderTrait(d));
  }

  lemma ImplSplice(x: string, src: string, rest: string, d: ImplDecl)
    requires MatchImpl(src + rest) == Some(d) && d.len == |src|
    requires forall p :: 0 <= p < |x| ==> ImplRule(x + src + rest, p).None?
    ensures ImplPass(x + src + rest) == x + RenderImpl(d) + ImplPass(rest)
  {
    assert (src + rest)[0..] == src + rest;
    SpliceShifts(x, src, rest);
    Splice(ImplRule, x, src, rest, RenderImpl(d));
  }

  /** A struct declaration becomes a type alias with the generics copied and the
      fields normalised; the text before it, where no declaration starts, and the
      text after it are passed on. */
  lemma StructPassSplice(x: string, src: string, ws1: string, name: string, gen: Option<string>, ws2: string,
                         body: string, rest: string)
    requires NamedParts(ws1, name, gen, ws2, body)
    requires src == NamedSource("struct", ws1, name, gen, ws2, body)
    requires forall p :: 0 <= p < |x| ==> StructRule(x + src + rest, p).None?
    ensures StructPass(x + src + rest)
      == x + ("type " + name + GenericPart(gen) + " = {\n  " + TypeBody(body) + "\n};") + StructPass(rest)
  {
    MatchNamedSource("struct", ws1, name, gen, ws2, body, rest);
    StructSplice(x, src, rest, Decl(name, gen, body, |src|));
  }

  /** A trait declaration becomes an interface with the body copied verbatim. */
  lemma TraitPassSplice(x: string, src: string, ws1: string, name: string, gen: Option<string>, ws2: string,
                        body: string, rest: string)
    requires NamedParts(ws1, name, gen, ws2, body)
    requires src == NamedSource("trait", ws1, name, gen, ws2, body)
    requires forall p :: 0 <= p < |x| ==> TraitRule(x + src + rest, p).None?
    ensures TraitPass(x + src + rest)
      == x + ("interface " + name + GenericPart(gen) + " {\n" + body + "\n}") + TraitPass(rest)
  {
    MatchNamedSource("trait", ws1, name, gen, ws2, body, rest);
    TraitSplice(x, src, rest, Decl(name, gen, body, |src|));
  }

  /** An impl block becomes a class named after the type and the trait, implementing
      the trait with the same generics, wrapping the type in a constructor and keeping
      the body verbatim. */
  lemma ImplPassSplice(x: string, src: string, ws1: string, traitName: string, gen: Option<string>, ws2: string,
                       ws3: string, structName: string, ws4: string, body: string, rest: string)
    requires ImplParts(ws1, traitName, gen, ws2, ws3, structName, ws4, body)
    requires src == ImplSource(ws1, traitName, gen, ws2, ws3, structName, ws4, body)
    requires forall p :: 0 <= p < |x| ==> ImplRule(x + src + rest, p).None?
    ensures var g := GenericPart(gen);
      ImplPass(x + src + rest)
      == x + ("class " + structName + traitName + "Impl" + g + " implements " + traitName + g
              + " {\n  constructor(private data: " + structName + ") {}\n" + body + "\n}") + ImplPass(rest)
  {
    MatchImplSource(ws1, traitName, gen, ws2, ws3, structName, ws4, body, rest);
    ImplSplice(x, src, rest, ImplDecl(traitName, gen, structName, body, |src|));
  }

  /** An impl block needs `for` somewhere after its start. */
  lemma ImplNeedsFor(u: string)
    requires MatchImpl(u).Some?
    ensures exists q :: 0 <= q < |u| && HasAt(u, q, "for")
  {
    var a := Keyword(u, 0, "impl").value;
    var h := NameAndGenerics(u, a).value;
    var f := RunEnd(u, h.end, Space);
    assert HasAt(u, f, "for");
  }

  /** Text without `for` holds no impl block, whatever `impl` it contains. */
  lemma NoForNoImpl(s: string)
    requires forall p :: 0 <= p < |s| ==> !HasAt(s, p, "for")
    ensures NoMatch(ImplRule, s)
  {
    forall p | 0 <= p < |s|
      ensures ImplRule(s, p).None?
    {
      if MatchImpl(s[p..]).Some? {
        ImplNeedsFor(s[p..]);
        var q :| 0 <= q < |s[p..]| && HasAt(s[p..], q, "for");
        HasAtSuffix(s, p, q, "for");
      }
    }
  }

  /** Text in which the keyword does not occur is left alone by its pass. */
  lemma NoKeywordUnchanged(s: string)
    ensures (forall p :: 0 <= p < |s| ==> !HasAt(s, p, "struct")) ==> StructPass(s) == s
    ensures (forall p :: 0 <= p < |s| ==> !HasAt(s, p, "trait")) ==> TraitPass(s) == s
    ensures (forall p :: 0 <= p < |s| ==> !HasAt(s, p, "impl")) ==> ImplPass(s) == s
    ensures (forall p :: 0 <= p < |s| ==> !HasAt(s, p, "struct")) ==> NoMatch(StructRule, s)
    ensures (forall p :: 0 <= p < |s| ==> !HasAt(s, p, "trait")) ==> NoMatch(TraitRule, s)
    ensures (forall p :: 0 <= p < |s| ==> !HasAt(s, p, "impl")) ==> NoMatch(ImplRule, s)
  {
    forall p | 0 <= p < |s|
      ensures StructRule(s, p).Some? ==> HasAt(s, p, "struct")
      ensures TraitRule(s, p).Some? ==> HasAt(s, p, "trait")
      ensures ImplRule(s, p).Some? ==> HasAt(s, p, "impl")
    {
      HasAtSuffix(s, p, 0, "struct");
      HasAtSuffix(s, p, 0, "trait");
      HasAtSuffix(s, p, 0, "impl");
    }
    if forall p :: 0 <= p < |s| ==> !HasAt(s, p, "struct") {
      Unchanged(StructRule, s);
    }
    if forall p :: 0 <= p < |s| ==> !HasAt(s, p, "trait") {
      Unchanged(TraitRule, s);
    }
    if forall p :: 0 <= p < |s| ==> !HasAt(s, p, "impl") {
      Unchanged(ImplRule, s);
    }
  }

}
