/** `compileBritescript` (src/compiler.ts:19-73) and the functions it calls that are not
    passes of their own: `transformBritescriptSyntax`, `transformJSX` and
    `generateSourceMap`. */
module Compiler {
  import opened Wrappers
  import opened Scan
  import opened Chars
  import opened Strings
  import opened StructBody
  import opened Declarations
  import opened Bindings
  import opened Pipes
  import opened Dependencies
  import opened Detector

  /** The plugin options the compiler reads. */
  datatype Options = Options(sourceMaps: bool, jsx: bool)

  /** The module being compiled: its id (file name) and its text. */
  datatype Context = Context(id: string, code: string, options: Options)

  /** The source map object before it is serialised. */
  datatype SourceMap = SourceMap(
    version: nat,
    file: string,
    sources: seq<string>,
    sourcesContent: seq<string>,
    names: seq<string>,
    mappings: string)

  datatype CompileResult = CompileResult(
    code: string,
    sourceMap: Option<SourceMap>,
    dependencies: seq<string>,
    warnings: seq<string>,
    errors: seq<string>)

  /** `generateSourceMap`: a version 3 map of the original text with no mappings. */
  function GenerateSourceMap(id: string, originalCode: string, transformedCode: string): SourceMap {
    SourceMap(3, id, [id], [originalCode], [], "")
  }

  /** `transformJSX`: JSX is left for a later plugin. */
  function TransformJsx(code: string, options: Options): string {
    code
  }

  /** `transformBritescriptSyntax`: the five passes, in the order the compiler runs them. */
  function TransformBritescriptSyntax(code: string): string {
    PipePass(LetPass(ImplPass(TraitPass(StructPass(code)))))
  }

  function Compile(ctx: Context): (r: CompileResult)
    ensures r.warnings == [] && r.errors == []
    ensures !ContainsBritescriptSyntax(ctx.code) ==> r.code == ctx.code
    ensures r.sourceMap.Some? <==> ctx.options.sourceMaps && ContainsBritescriptSyntax(ctx.code)
    ensures r.sourceMap.Some? ==> r.sourceMap.value.version == 3 && r.sourceMap.value.file == ctx.id
    ensures r.sourceMap.Some? ==> r.sourceMap.value.sources == [ctx.id] && r.sourceMap.value.sourcesContent == [ctx.code]
    ensures r.sourceMap.Some? ==> r.sourceMap.value.names == [] && r.sourceMap.value.mappings == ""
    ensures forall d <- r.dependencies :: |d| > 0 && '\'' !in d && '"' !in d
  {
    var isBsx := EndsWith(ctx.id, ".bsx");
    var has := ContainsBritescriptSyntax(ctx.code);
    var transformed := if has then TransformBritescriptSyntax(ctx.code) else ctx.code;
    var out := if isBsx && ctx.options.jsx && has then TransformJsx(transformed, ctx.options) else transformed;
    var sourceMap := if ctx.options.sourceMaps && has then Some(GenerateSourceMap(ctx.id, ctx.code, out)) else None;
    CompileResult(out, sourceMap, ExtractDependencies(out), [], [])
  }

  // ---------------------------------------------------------------------------
  // What the options and the file name decide.

  /** Code without Britescript syntax comes back as it is, without a map, with the
      dependencies its own imports name. */
  lemma QuietCompile(ctx: Context)
    requires !ContainsBritescriptSyntax(ctx.code)
    ensures Compile(ctx) == CompileResult(ctx.code, None, ExtractDependencies(ctx.code), [], [])
  {
  }

  /** The emitted code and its dependencies are those of the five passes; neither the
      options nor the file name change them. */
  lemma CodeIsTransform(ctx: Context)
    ensures ContainsBritescriptSyntax(ctx.code) ==> Compile(ctx).code == TransformBritescriptSyntax(ctx.code)
    ensures Compile(ctx).dependencies == ExtractDependencies(Compile(ctx).code)
  {
  }

  /** Leaving JSX in place, the `.bsx` branch never changes the code: whether JSX is
      enabled, and whether the file is a `.bsx` file, makes no difference. */
  lemma JsxIrrelevant(ctx: Context, jsx: bool, id: string)
    ensures var other := Context(id, ctx.code, Options(ctx.options.sourceMaps, jsx));
      && Compile(other).code == Compile(ctx).code
      && Compile(other).dependencies == Compile(ctx).dependencies
  {
  }

  /** Turning source maps on or off changes the map and nothing else. */
  lemma MapOnlyDifference(ctx: Context, sourceMaps: bool)
    ensures var other := Context(ctx.id, ctx.code, Options(sourceMaps, ctx.options.jsx));
      Compile(other) == Compile(ctx).(sourceMap := Compile(other).sourceMap)
  {
  }

  /** The map carries the text it was given and ignores the transformed text. */
  lemma MapOfOriginal(id: string, original: string, t1: string, t2: string)
    ensures GenerateSourceMap(id, original, t1) == GenerateSourceMap(id, original, t2)
    ensures GenerateSourceMap(id, original, t1).sourcesContent == [original]
  {
  }

  /** An empty module compiles to an empty module. */
  lemma EmptyCompile(ctx: Context)
    requires ctx.code == ""
    ensures Compile(ctx) == CompileResult("", None, [], [], [])
  {
    assert !FirstMarker("", 0).Some?;
  }

  // ---------------------------------------------------------------------------
  // Whole modules holding one declaration.

  /** Text in which none of the passes after the struct pass finds a match. */
  predicate Inert(t: string) {
    NoMatch(TraitRule, t) && NoMatch(ImplRule, t) && NoMatch(LetRule, t) && NoMatch(PipeRule, t)
  }

  /** The passes after the struct pass leave inert text alone. */
  lemma InertSettles(t: string)
    requires Inert(t)
    ensures PipePass(LetPass(ImplPass(TraitPass(t)))) == t
  {
    Unchanged(TraitRule, t);
    Unchanged(ImplRule, t);
    Unchanged(LetRule, t);
    Unchanged(PipeRule, t);
  }

  lemma PassEmpty()
    ensures StructPass("") == "" && TraitPass("") == "" && ImplPass("") == ""
  {
  }

  /** The code of a module the detector accepts, whose declaration passes produce text
      in which neither the `let` nor the pipe pattern matches, is that text. */
  lemma CompileSettles(ctx: Context, t: string)
    requires ContainsBritescriptSyntax(ctx.code)
    requires ImplPass(TraitPass(StructPass(ctx.code))) == t
    requires NoMatch(LetRule, t) && NoMatch(PipeRule, t)
    ensures Compile(ctx).code == t
  {
    Unchanged(LetRule, t);
    Unchanged(PipeRule, t);
  }

  /** A declaration at the start of a module is found by the detector. */
  lemma NamedSourceDetected(kw: string, ws1: string, name: string, gen: Option<string>, ws2: string, body: string)
    requires kw == "struct" || kw == "trait"
    requires NamedParts(ws1, name, gen, ws2, body)
    ensures ContainsBritescriptSyntax(NamedSource(kw, ws1, name, gen, ws2, body))
  {
    var s := NamedSource(kw, ws1, name, gen, ws2, body);
    MatchNamedSource(kw, ws1, name, gen, ws2, body, "");
    assert s[0..] == s + "";
    assert s[0] == kw[0];
    NamedDetected(s, 0);
  }

  lemma ImplSourceDetected(ws1: string, traitName: string, gen: Option<string>, ws2: string,
                           ws3: string, structName: string, ws4: string, body: string)
    requires ImplParts(ws1, traitName, gen, ws2, ws3, structName, ws4, body)
    ensures ContainsBritescriptSyntax(ImplSource(ws1, traitName, gen, ws2, ws3, structName, ws4, body))
  {
    var s := ImplSource(ws1, traitName, gen, ws2, ws3, structName, ws4, body);
    MatchImplSource(ws1, traitName, gen, ws2, ws3, structName, ws4, body, "");
    assert s[0..] == s + "";
    assert s[0] == 'i';
    ImplDetected(s, 0);
  }

  lemma StructOnly(s: string, ws1: string, name: string, gen: Option<string>, ws2: string, body: string, out: string)
    requires NamedParts(ws1, name, gen, ws2, body)
    requires s == NamedSource("struct", ws1, name, gen, ws2, body)
    requires out == "type " + name + GenericPart(gen) + " = {\n  " + TypeBody(body) + "\n};"
    ensures StructPass(s) == out
  {
    StructPassSplice("", s, ws1, name, gen, ws2, body, "");
    PassEmpty();
    Alone(s);
    Alone(out);
  }

  lemma TraitOnly(s: string, ws1: string, name: string, gen: Option<string>, ws2: string, body: string, out: string)
    requires NamedParts(ws1, name, gen, ws2, body)
    requires s == NamedSource("trait", ws1, name, gen, ws2, body)
    requires out == "interface " + name + GenericPart(gen) + " {\n" + body + "\n}"
    ensures TraitPass(s) == out
  {
    TraitPassSplice("", s, ws1, name, gen, ws2, body, "");
    PassEmpty();
    Alone(s);
    Alone(out);
  }

  lemma ImplOnly(s: string, ws1: string, traitName: string, gen: Option<string>, ws2: string,
                 ws3: string, structName: string, ws4: string, body: string, out: string)
    requires ImplParts(ws1, traitName, gen, ws2, ws3, structName, ws4, body)
    requires s == ImplSource(ws1, traitName, gen, ws2, ws3, structName, ws4, body)
    requires out == "class " + structName + traitName + "Impl" + GenericPart(gen) + " implements " + traitName
                    + GenericPart(gen) + " {\n  constructor(private data: " + structName + ") {}\n" + body + "\n}"
    ensures ImplPass(s) == out
  {
    ImplPassSplice("", s, ws1, traitName, gen, ws2, ws3, structName, ws4, body, "");
    PassEmpty();
    Alone(s);
    Alone(out);
  }

  /** A module that is one struct declaration compiles to its type alias, with the
      fields normalised, whenever no later pass matches in that alias. */
  lemma CompileStruct(ctx: Context, ws1: string, name: string, gen: Option<string>, ws2: string, body: string, out: string)
    requires NamedParts(ws1, name, gen, ws2, body)
    requires ctx.code == NamedSource("struct", ws1, name, gen, ws2, body)
    requires out == "type " + name + GenericPart(gen) + " = {\n  " + TypeBody(body) + "\n};"
    requires Inert(out)
    ensures Compile(ctx).code == out
    ensures Compile(ctx).sourceMap.Some? <==> ctx.options.sourceMaps
  {
    NamedSourceDetected("struct", ws1, name, gen, ws2, body);
    StructOnly(ctx.code, ws1, name, gen, ws2, body, out);
    InertSettles(out);
  }

  /** A module that is one trait declaration, in which the struct pattern does not
      match, compiles to its interface with the body copied as written, whenever the
      impl, `let` and pipe patterns do not match in that interface. */
  lemma CompileTrait(ctx: Context, ws1: string, name: string, gen: Option<string>, ws2: string, body: string, out: string)
    requires NamedParts(ws1, name, gen, ws2, body)
    requires ctx.code == NamedSource("trait", ws1, name, gen, ws2, body)
    requires NoMatch(StructRule, ctx.code)
    requires out == "interface " + name + GenericPart(gen) + " {\n" + body + "\n}"
    requires NoMatch(ImplRule, out) && NoMatch(LetRule, out) && NoMatch(PipeRule, out)
    ensures Compile(ctx).code == out
  {
    NamedSourceDetected("trait", ws1, name, gen, ws2, body);
    Unchanged(StructRule, ctx.code);
    TraitOnly(ctx.code, ws1, name, gen, ws2, body, out);
    Unchanged(ImplRule, out);
    Unchanged(LetRule, out);
    Unchanged(PipeRule, out);
  }

  /** A module that is one impl block, in which neither the struct nor the trait
      pattern matches, compiles to its class, named after the type and then the trait,
      whenever the `let` and pipe patterns do not match in that class. */
  lemma CompileImpl(ctx: Context, ws1: string, traitName: string, gen: Option<string>, ws2: string,
                    ws3: string, structName: string, ws4: string, body: string, out: string)
    requires ImplParts(ws1, traitName, gen, ws2, ws3, structName, ws4, body)
    requires ctx.code == ImplSource(ws1, traitName, gen, ws2, ws3, structName, ws4, body)
    requires NoMatch(StructRule, ctx.code) && NoMatch(TraitRule, ctx.code)
    requires out == "class " + structName + traitName + "Impl" + GenericPart(gen) + " implements " + traitName
                    + GenericPart(gen) + " {\n  constructor(private data: " + structName + ") {}\n" + body + "\n}"
    requires NoMatch(LetRule, out) && NoMatch(PipeRule, out)
    ensures Compile(ctx).code == out
  {
    ImplSourceDetected(ws1, traitName, gen, ws2, ws3, structName, ws4, body);
    Unchanged(StructRule, ctx.code);
    Unchanged(TraitRule, ctx.code);
    ImplOnly(ctx.code, ws1, traitName, gen, ws2, ws3, structName, ws4, body, out);
    Unchanged(LetRule, out);
    Unchanged(PipeRule, out);
  }

  /** `impl Eq for P { x }` compiles to the class `PEqImpl`. */
  lemma TestImpl(ctx: Context)
    requires ctx.code == "impl Eq for P { x }"
    ensures Compile(ctx).code == "class " + "P" + "Eq" + "Impl" + " implements " + "Eq"
                                 + " {\n  constructor(private data: " + "P" + ") {}\n" + " x " + "\n}"
  {
    var S, T, g, body := "P", "Eq", GenericPart(None), " x ";
    ExampleImplParts(ctx.code);
    ExampleImplQuiet(ctx.code);
    ClassTextLets(S, T, g, body);
    ClassTextArrows(S, T, g, body);
    var out := "class " + S + T + "Impl" + g + " implements " + T + g + " {\n  constructor(private data: " + S + ") {}\n" + body + "\n}";
    forall p | 0 <= p < |out|
      ensures LetRule(out, p).None?
    {
      assert !HasAt(out, p, "let");
    }
    NoArrowUnchanged(out);
    CompileImpl(ctx, " ", "Eq", None, " ", " ", "P", " ", " x ", out);
    var head := "class " + S + T + "Impl";
    assert head + g == head;
    assert head + g + " implements " + T + g == head + " implements " + T;
  }

  lemma ExampleImplParts(code: string)
    requires code == "impl Eq for P { x }"
    ensures code == ImplSource(" ", "Eq", None, " ", " ", "P", " ", " x ")
    ensures ImplParts(" ", "Eq", None, " ", " ", "P", " ", " x ")
  {
  }

  /** The example holds neither `struct` nor `trait`. */
  lemma ExampleImplQuiet(code: string)
    requires code == "impl Eq for P { x }"
    ensures NoMatch(StructRule, code) && NoMatch(TraitRule, code)
  {
    Lacks(code, "struct", 0);
    Lacks(code, "trait", 2);
    NoKeywordUnchanged(code);
  }

  /** `let` occurs nowhere in the class text of the example. */
  lemma ClassTextLets(S: string, T: string, g: string, body: string)
    requires S == "P" && T == "Eq" && g == "" && body == " x "
    ensures var t := "class " + S + T + "Impl" + g + " implements " + T + g + " {\n  constructor(private data: " + S + ") {}\n" + body + "\n}";
      forall p :: 0 <= p < |t| ==> !HasAt(t, p, "let")
  {
    assert "let"[1..] == "et";
    Lacks("class ", "let", 1);
    Lacks(S, "let", 0);
    NoneAcross("class ", S, "let");
    Lacks(T, "let", 0);
    NoneAcross("class " + S, T, "let");
    Lacks("Impl", "let", 1);
    NoneAcross("class " + S + T, "Impl", "let");
    Lacks(g, "let", 0);
    NoneAcross("class " + S + T + "Impl", g, "let");
    ImplementsLets(" implements ");
    NoneAcross("class " + S + T + "Impl" + g, " implements ", "let");
    Lacks(T, "let", 0);
    NoneAcross("class " + S + T + "Impl" + g + " implements ", T, "let");
    Lacks(g, "let", 0);
    NoneAcross("class " + S + T + "Impl" + g + " implements " + T, g, "let");
    Lacks(" {\n  constructor(private data: ", "let", 0);
    NoneAcross("class " + S + T + "Impl" + g + " implements " + T + g, " {\n  constructor(private data: ", "let");
    Lacks(S, "let", 0);
    NoneAcross("class " + S + T + "Impl" + g + " implements " + T + g + " {\n  constructor(private data: ", S, "let");
    Lacks(") {}\n", "let", 0);
    NoneAcross("class " + S + T + "Impl" + g + " implements " + T + g + " {\n  constructor(private data: " + S, ") {}\n", "let");
    Lacks(body, "let", 0);
    NoneAcross("class " + S + T + "Impl" + g + " implements " + T + g + " {\n  constructor(private data: " + S + ") {}\n", body, "let");
    Lacks("\n}", "let", 0);
    NoneAcross("class " + S + T + "Impl" + g + " implements " + T + g + " {\n  constructor(private data: " + S + ") {}\n" + body, "\n}", "let");
  }

  lemma ImplementsLets(x: string)
    requires x == " implements "
    ensures forall p :: 0 <= p < |x| ==> !HasAt(x, p, "let")
  {
    assert x == " imple" + "ments ";
    assert "let"[1..] == "et";
    Lacks(" imple", "let", 2);
    Lacks("ments ", "let", 0);
    NoneAcross(" imple", "ments ", "let");
  }

  /** `|>` occurs nowhere in the class text of the example. */
  lemma ClassTextArrows(S: string, T: string, g: string, body: string)
    requires S == "P" && T == "Eq" && g == "" && body == " x "
    ensures var t := "class " + S + T + "Impl" + g + " implements " + T + g + " {\n  constructor(private data: " + S + ") {}\n" + body + "\n}";
      forall p :: 0 <= p < |t| ==> !HasAt(t, p, "|>")
  {
    assert "|>"[1..] == ">";
    Lacks("class ", "|>", 0);
    Lacks(S, "|>", 0);
    NoneAcross("class ", S, "|>");
    Lacks(T, "|>", 0);
    NoneAcross("class " + S, T, "|>");
    Lacks("Impl", "|>", 0);
    NoneAcross("class " + S + T, "Impl", "|>");
    Lacks(g, "|>", 0);
    NoneAcross("class " + S + T + "Impl", g, "|>");
    Lacks(" implements ", "|>", 0);
    NoneAcross("class " + S + T + "Impl" + g, " implements ", "|>");
    Lacks(T, "|>", 0);
    NoneAcross("class " + S + T + "Impl" + g + " implements ", T, "|>");
    Lacks(g, "|>", 0);
    NoneAcross("class " + S + T + "Impl" + g + " implements " + T, g, "|>");
    Lacks(" {\n  constructor(private data: ", "|>", 0);
    NoneAcross("class " + S + T + "Impl" + g + " implements " + T + g, " {\n  constructor(private data: ", "|>");
    Lacks(S, "|>", 0);
    NoneAcross("class " + S + T + "Impl" + g + " implements " + T + g + " {\n  constructor(private data: ", S, "|>");
    Lacks(") {}\n", "|>", 0);
    NoneAcross("class " + S + T + "Impl" + g + " implements " + T + g + " {\n  constructor(private data: " + S, ") {}\n", "|>");
    Lacks(body, "|>", 0);
    NoneAcross("class " + S + T + "Impl" + g + " implements " + T + g + " {\n  constructor(private data: " + S + ") {}\n", body, "|>");
    Lacks("\n}", "|>", 0);
    NoneAcross("class " + S + T + "Impl" + g + " implements " + T + g + " {\n  constructor(private data: " + S + ") {}\n" + body, "\n}", "|>");
  }

  // ---------------------------------------------------------------------------
  // Whole modules holding one pipeline.

  /** Text in which none of the struct, trait, impl and `let` patterns matches. */
  predicate NoDeclarations(t: string) {
    NoMatch(StructRule, t) && NoMatch(TraitRule, t) && NoMatch(ImplRule, t) && NoMatch(LetRule, t)
  }

  /** Such text reaches the pipe pass unchanged. */
  lemma OnlyPipes(ctx: Context)
    requires ContainsBritescriptSyntax(ctx.code) && NoDeclarations(ctx.code)
    ensures Compile(ctx).code == PipePass(ctx.code)
  {
    Unchanged(StructRule, ctx.code);
    Unchanged(TraitRule, ctx.code);
    Unchanged(ImplRule, ctx.code);
    Unchanged(LetRule, ctx.code);
  }

  lemma OneStageDetected(init: Call, ws1: string, ws2: string, f: string)
    requires ValidCall(init) && ValidArrow(ws1, ws2) && |f| > 0 && AllIn(f, Word)
    ensures ContainsBritescriptSyntax(OneText(init, ws1, ws2, f))
  {
    var s := OneText(init, ws1, ws2, f);
    MatchOne(init, ws1, ws2, f, "");
    assert s[0..] == s + "";
    PipeDetected(s, 0);
  }

  lemma TwoStagesDetected(init: Call, ws1: string, ws2: string, f: string, ws3: string, ws4: string, g: Call)
    requires ValidCall(init) && ValidArrow(ws1, ws2) && |f| > 0 && AllIn(f, Word)
    requires ValidArrow(ws3, ws4) && ValidCall(g)
    ensures ContainsBritescriptSyntax(TwoText(init, ws1, ws2, f, ws3, ws4, g))
  {
    var s := TwoText(init, ws1, ws2, f, ws3, ws4, g);
    MatchTwo(init, ws1, ws2, f, ws3, ws4, g, "");
    assert s[0..] == s + "";
    PipeDetected(s, 0);
  }

  /** A module that is one pipe `a |> f` compiles to the call `f(a)`. */
  lemma CompileOneStage(ctx: Context, init: Call, ws1: string, ws2: string, f: string)
    requires ValidCall(init) && ValidArrow(ws1, ws2) && |f| > 0 && AllIn(f, Word)
    requires ctx.code == OneText(init, ws1, ws2, f) && NoDeclarations(ctx.code)
    ensures Compile(ctx).code == f + "(" + CallText(init) + ")"
  {
    OneStageDetected(init, ws1, ws2, f);
    OnlyPipes(ctx);
    PassOne("", ctx.code, init, ws1, ws2, f, "");
    Alone(ctx.code);
    Alone(f + "(" + CallText(init) + ")");
  }

  /** `data |> simplify` compiles to `simplify(data)`: an `impl` inside a word with no
      `for` after it starts no impl block. */
  lemma TestSimplify(ctx: Context)
    requires ctx.code == "data |> simplify"
    ensures Compile(ctx).code == "simplify" + "(" + "data" + ")"
  {
    var init := Call("data", None);
    assert CallText(init) == "data";
    assert ctx.code == OneText(init, " ", " ", "simplify");
    assert ValidCall(init) && ValidArrow(" ", " ") && AllIn("simplify", Word);
    ExampleSimplifyQuiet(ctx.code);
    CompileOneStage(ctx, init, " ", " ", "simplify");
  }

  lemma ExampleSimplifyQuiet(code: string)
    requires code == "data |> simplify"
    ensures NoDeclarations(code)
  {
    Lacks(code, "struct", 3);
    Lacks(code, "trait", 1);
    NoKeywordUnchanged(code);
    Lacks(code, "for", 1);
    NoForNoImpl(code);
    Lacks(code, "let", 1);
    forall p | 0 <= p < |code|
      ensures LetRule(code, p).None?
    {
      assert !HasAt(code, p, "let");
    }
  }

  /** A module that is one pipeline `a |> f |> g` compiles to the nested call `g(f(a))`. */
  lemma CompileTwoStages(ctx: Context, init: Call, ws1: string, ws2: string, f: string, ws3: string,
                         ws4: string, g: Call)
    requires ValidCall(init) && ValidArrow(ws1, ws2) && |f| > 0 && AllIn(f, Word)
    requires ValidArrow(ws3, ws4) && ValidCall(g)
    requires ctx.code == TwoText(init, ws1, ws2, f, ws3, ws4, g) && NoDeclarations(ctx.code)
    ensures Compile(ctx).code == CallText(g) + "(" + f + "(" + CallText(init) + "))"
  {
    TwoStagesDetected(init, ws1, ws2, f, ws3, ws4, g);
    OnlyPipes(ctx);
    PassTwo("", ctx.code, init, ws1, ws2, f, ws3, ws4, g, "");
    Alone(ctx.code);
    Alone(CallText(g) + "(" + f + "(" + CallText(init) + "))");
  }
}
