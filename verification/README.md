# Britescript compiler, modelled in Dafny

This project models the compiler inside the Britescript Vite plugin, `compileBritescript` in
`src/compiler.ts`. The compiler turns a Britescript module (`.bs` / `.bsx`) into
TypeScript with a handful of regular-expression passes:

- `containsBritescriptSyntax` decides whether any Britescript marker occurs. It looks for
  `struct`, `trait` or `impl` before a name, a `let` assignment, or the pipe `|>`.
- Only when the detector fires, `transformBritescriptSyntax` runs five global replaces in
  order:
  1. `struct` declarations become `type` aliases, with their fields normalised.
  2. `trait` declarations become `interface`s.
  3. `impl T for S` blocks become classes named `S + T + "Impl"`.
  4. `let` followed by white space becomes `const `.
  5. Pipe chains of one or two stages become nested calls.
- `.bsx` files with JSX enabled, and only when the detector fired, go through `transformJSX`,
  which returns the code as it is.
- With source maps enabled, and only when the detector fired, `generateSourceMap` builds a
  version 3 map of the original text with empty mappings.
- `extractDependencies` collects the specifier of every `import … from '…'` in the
  transformed code.

How each piece is modelled:

- Every regular expression is a matcher `Rule(s, i)`. It says whether the pattern matches
  at position `i` of `s`, how many characters it consumes and what it is replaced with.
- One left-to-right scanner, `Scan.ReplaceAll`, gives the semantics of JavaScript's
  `String.prototype.replace` with the `g` flag.
- Character classes follow JavaScript without the `u` flag:
  - `\w` is ASCII.
  - `\s` and `trim` use the full WhiteSpace and LineTerminator set.
  - `.` stops at line terminators.
- The greedy runs of the rewrite patterns cannot give anything back. The one pattern that
  backtracks is the import pattern, where a lazy `.*?` follows a greedy `\s+`. It is modelled
  literally as a backtracking search (`Dependencies.Backtrack`, `Dependencies.Lazy`).
- Strings are `seq<char>`. A Dafny `char` is a Unicode scalar value, whereas a JavaScript
  string is a sequence of UTF-16 code units. A lone surrogate therefore cannot be
  represented, and a character outside the Basic Multilingual Plane is one element here
  rather than two. None of the modelled patterns, nor `trim` or the `length > 0` test, can
  tell the two representations apart.
- Integers are unbounded and the model needs no fixed width.

Modules:

| module | file | models |
|---|---|---|
| Chars | chars.dfy | character classes, maximal runs, literal occurrences |
| Scan | scan.dfy | global replace |
| Strings | strings.dfy | `split`, `join`, `trim`, `endsWith` |
| StructBody | structbody.dfy | the field normalisation of struct bodies |
| Declarations | declarations.dfy | the struct, trait and impl passes |
| Bindings | bindings.dfy | the `let` pass |
| Pipes | pipes.dfy | `transformPipeOperations` |
| Dependencies | dependencies.dfy | `extractDependencies` |
| Detector | detector.dfy | `containsBritescriptSyntax` |
| Compiler | compiler.dfy | `compileBritescript`, `transformBritescriptSyntax`, `transformJSX`, `generateSourceMap` |

## Model

| member | source | states |
|---|---|---|
| Detector.ContainsBritescriptSyntax | src/compiler.ts:78-88 | the detector answers true exactly when one of the five marker patterns matches at some position of the code |
| Detector.FirstMarker | src/compiler.ts:79-87 | the position returned is a marker with no marker before it; no result means no marker from the start position on |
| Detector.PipeDetected | src/compiler.ts:84 | every place the pipe pass rewrites contains a pipe operator the detector finds |
| Detector.NamedDetected | src/compiler.ts:80-81 | a struct or trait declaration the passes rewrite where a word starts is a `struct`/`trait` marker |
| Detector.ImplDetected | src/compiler.ts:82 | an impl block the pass rewrites where a word starts is an `impl` marker |
| Detector.QuietPipes | src/compiler.ts:33-46 | code the detector rejects has no pipe the pipe pass would rewrite |
| Detector.BareLetNotDetected | src/compiler.ts:83 | `let x;` is not detected although the `let` pass alone would turn it into `const x;` |
| Compiler.Compile | src/compiler.ts:19-65 | no warnings or errors; code without Britescript syntax is returned unchanged; a map exists iff source maps are on and the detector fired, and it has version 3, file = id, sources = [id], sourcesContent = [original code], no names and empty mappings; every dependency is non-empty and quote-free |
| Compiler.QuietCompile | src/compiler.ts:33-65 | without Britescript syntax the result is the input code, no map, the input's own dependencies, no warnings, no errors |
| Compiler.CodeIsTransform | src/compiler.ts:35-62 | detected code compiles to the five passes' output, and the dependencies are those of the emitted code |
| Compiler.JsxIrrelevant | src/compiler.ts:48-51 | neither the jsx option nor the `.bsx` extension changes the code or the dependencies |
| Compiler.MapOnlyDifference | src/compiler.ts:53-57 | switching source maps on or off changes only the map field |
| Compiler.MapOfOriginal | src/compiler.ts:182-194 | the map records the original text and does not depend on the transformed text |
| Compiler.EmptyCompile | src/compiler.ts:19-65 | an empty module compiles to empty code with no map, no dependencies and no errors |
| Compiler.InertSettles | src/compiler.ts:113-137 | text in which none of the trait, impl, `let` and pipe patterns matches is a fixed point of those four passes |
| Compiler.CompileSettles | src/compiler.ts:38-46 | when the declaration passes produce text in which neither the `let` nor the pipe pattern matches, that text is the emitted code |
| Compiler.NamedSourceDetected | src/compiler.ts:80-81 | a module that begins with a well-formed struct or trait declaration is detected |
| Compiler.ImplSourceDetected | src/compiler.ts:82 | a module that begins with a well-formed impl block is detected |
| Compiler.CompileStruct | src/compiler.ts:97-110 | a module holding one struct compiles to `type N<G> = {` + normalised fields + `};`, with a map iff source maps are on, whenever no later pattern matches in that alias |
| Compiler.CompileTrait | src/compiler.ts:113-119 | a module holding one trait, in which the struct pattern does not match, compiles to `interface N<G> {` + the body copied verbatim + `}`, whenever the impl, `let` and pipe patterns do not match in that interface |
| Compiler.CompileImpl | src/compiler.ts:122-129 | a module holding one impl block, in which neither the struct nor the trait pattern matches, compiles to class `S+T+"Impl"` implementing `T<G>`, with the constructor line and the body verbatim, whenever the `let` and pipe patterns do not match in that class |
| Compiler.TestImpl | src/compiler.ts:122-129 | `impl Eq for P { x }` compiles to `class PEqImpl implements Eq {` + the constructor line + ` x ` + `}`, the `impl` in ` implements ` notwithstanding |
| Compiler.OnlyPipes | src/compiler.ts:93-137 | detected text in which none of the struct, trait, impl and `let` patterns matches reaches the pipe pass unchanged |
| Compiler.CompileOneStage | src/compiler.ts:159-164 | a module `a` piped into `f`, in which none of the struct, trait, impl and `let` patterns matches, compiles to `f(a)` |
| Compiler.TestSimplify | src/compiler.ts:159-164 | `data` piped into `simplify` compiles to `simplify(data)`: the `impl` inside `simplify` starts no impl block, because no `for` follows it |
| Compiler.CompileTwoStages | src/compiler.ts:151-157 | a module `a` piped into `f`, then into `g`, in which none of the struct, trait, impl and `let` patterns matches, compiles to `g(f(a))` |
| Declarations.MatchNamedSource | src/compiler.ts:98 | a written struct or trait declaration matches exactly up to its closing brace and captures name, generics and body |
| Declarations.MatchImplSource | src/compiler.ts:123 | a written impl block matches exactly up to its closing brace and captures trait, generics, struct and body |
| Declarations.StructPassSplice | src/compiler.ts:97-110 | the struct pass replaces the first declaration by `type N<G> = {\n  <normalised fields>\n};` and continues after its brace |
| Declarations.TraitPassSplice | src/compiler.ts:113-119 | the trait pass replaces the first declaration by `interface N<G> {\n<body>\n}` and continues after its brace |
| Declarations.ImplPassSplice | src/compiler.ts:122-129 | the impl pass replaces the first block by the `S+T+"Impl"` class and continues after its brace |
| Declarations.NoKeywordUnchanged | src/compiler.ts:97-129 | text without the keyword is left unchanged by that keyword's pass |
| StructBody.FieldListOfLayout | src/compiler.ts:101-106 | a body written as `;`-separated pieces, each white space around a trimmed `;`-free text, normalises to the non-blank texts in order, each with exactly one `;`: blank pieces are dropped and a last field written without `;` gets one |
| StructBody.FieldsOnLines | src/__tests__/compiler.test.ts:47-64 | two fields written on their own lines, as in the struct test, normalise to those two fields with one `;` each |
| StructBody.LastFieldTerminated | src/compiler.ts:105 | a field written without a `;` after it comes out with one |
| StructBody.BlankPieceDropped | src/compiler.ts:104 | a blank piece between two fields (`a; ;b`) is dropped and the two fields are kept |
| StructBody.FieldListStable | src/compiler.ts:101-108 | the normalised body declares the same fields as the original body, so normalising twice changes nothing more |
| Strings.SplitJoin | src/compiler.ts:102 | splitting a join of separator-free parts on the separator gives the parts back |
| Strings.TrimExact | src/compiler.ts:103 | trimming white space around a trimmed middle gives the middle |
| Bindings.LetPassSplice | src/compiler.ts:132 | text with no `let` head is copied, `let` at a word start followed by white space becomes `const ` (the whole run of white space is consumed), and the pass continues with the rest |
| Bindings.TestLetLines | src/__tests__/compiler.test.ts:88-103 | the `let` test's two declarations become `const userName = "Alice";` and `const userAge = 25;` |
| Bindings.NoLetAfterPass | src/compiler.ts:132 | no `let` followed by white space at a word start remains after the let pass |
| Bindings.Idempotent | src/compiler.ts:132 | running the let pass twice is running it once |
| Bindings.FixedPoints | src/compiler.ts:132 | the let pass leaves a text unchanged iff it has no let head |
| Pipes.Func1HasNoParen | src/compiler.ts:149-165 | the first function name captured never contains `(`, so the two `includes('(')` branches are never taken |
| Pipes.PassOne | src/compiler.ts:159-164 | a single pipe `a` piped into `f` is replaced by `f(a)` and the scan continues after it |
| Pipes.PassTwo | src/compiler.ts:151-157 | a two-stage pipe `a` piped into `f`, then into `g`, is replaced by `g(f(a))` and the scan continues after it |
| Pipes.MatchTwo | src/compiler.ts:149 | a written two-stage pipe matches as one piece and captures initial value, first function and second function |
| Pipes.ThirdStageLeft | src/compiler.ts:149 | in a three-stage chain `a`, `f`, `g`, `h` the third stage is left in place after `g(f(a))` |
| Pipes.NoArrowUnchanged | src/compiler.ts:143-168 | text without the pipe operator is unchanged by the pipe pass |
| Dependencies.ExtractDependencies | src/compiler.ts:199-209 | every reported dependency is non-empty and contains no quote |
| Dependencies.NoneIff | src/compiler.ts:204-208 | the result is empty iff the pattern matches at no position |
| Dependencies.NoFromNoDeps | src/compiler.ts:201 | text without `from` has no dependencies |
| Dependencies.MatchImportSource | src/compiler.ts:201 | a written `import … from '<spec>'` matches exactly up to its closing quote and captures `<spec>` |
| Dependencies.ImportReported | src/compiler.ts:201-206 | an import after text in which `import` does not occur contributes its specifier first, in order, and the scan continues after it |
| Dependencies.DependenciesSplice | src/compiler.ts:204-206 | a match after text with no match reports its specifier before everything after it |
| Dependencies.BareImportIgnored | src/compiler.ts:201 | `import './styles.css';` contributes no dependency |
| Dependencies.TestImports | src/__tests__/compiler.test.ts:150-168 | the dependency test's three import lines give `["react", "react"]`, duplicates kept |
| Scan.Splice | src/compiler.ts:97-98 | a global replace copies text where nothing matches, replaces the first match and resumes right after it |
| Scan.Unchanged | src/compiler.ts:97-98 | a global replace that matches nowhere returns its input |

## Left out

- `createBritescriptFilter` (src/compiler.ts:9-14) is not modelled. It only hands glob patterns to Rollup's `createFilter`. The plugin wiring in `src/index.ts` is not part of this model.
- Verbose logging (src/compiler.ts:28-30, 39-45) is left out; it writes to the console and changes no result.
- `compileBritescript` is `async`; the model is a pure function from the context to the result.
- `generateSourceMap` returns `JSON.stringify` of the map object (src/compiler.ts:193). The model keeps the object as a record, so the serialisation is not modelled.
- The `catch` branch (src/compiler.ts:67-72) is not modelled. Nothing in the modelled code throws, so the branch is unreachable in the model.
- The `func1.includes('(')` branches (src/compiler.ts:153-154, 160-161) are not written out, because `func1` is captured by `\w+` and can never hold `(`. Pipes.Func1HasNoParen proves this.
- Pipe chains of three or more stages: the pattern rewrites at most two stages per match. Pipes.ThirdStageLeft shows the rest is left as written. Longer chains are not characterised further.
- Options that the compiler does not read are absent from `Options`: `include`, `exclude`, `target`, `jsxFactory`, `jsxFragment`, `development`, `compilerOptions`, and the context flags `isBuild`/`isSSR`. `verbose` is read only to gate the logging, which is left out. `isBsFile` (src/compiler.ts:26) is computed but never used.
- Compiler.CompileStruct, Compiler.CompileTrait, Compiler.CompileImpl, Compiler.CompileOneStage and Compiler.CompileTwoStages state the emitted code only for modules that hold exactly one such construct. The pattern of every other pass must match nowhere in the text that pass reads: the module for the passes before the construct's own, and the rewritten text for the passes after it. Words such as `construct` or `simplify` are allowed; only an actual match is excluded. Mixed modules are covered only piecewise, through the splice lemmas of each pass.
- Keywords and pipes inside strings, comments or template literals are treated like code. The source's regular expressions do not tell them apart either.

Where the model follows the code rather than the documented behaviour:

- The dependency test expects `./styles.css` among the dependencies (src/__tests__/compiler.test.ts:166). The import pattern requires `from`, so a side-effect import is never reported. Dependencies.TestImports and Dependencies.BareImportIgnored show the code's result, `["react", "react"]`.
- A second pipe stage with arguments, `x |> f |> g(1)`, becomes `g(1)(f(x))`. The whole captured `func2` text is called (src/compiler.ts:156); no argument is spliced in.
- The struct, trait and impl rewrites have no `\b` (src/compiler.ts:98, 114, 123), so they also fire inside longer words such as `destruct`. The detector does require `\b`. The `let` rewrite needs no `=` but the detector does, so `let x;` alone is not transformed (Detector.BareLetNotDetected).
- Dependencies are read from the transformed code (src/compiler.ts:62), not from the original.
- `.*?` in the import pattern does not cross line terminators, so the clause between `import` and `from` cannot contain one: a multi-line `import {\n a\n} from 'x'` is not reported. The white space on either side of the clause may contain line breaks.
- Compile of empty code yields empty code and no errors (Compiler.EmptyCompile). So "the code is empty exactly when there are errors" does not hold on that input.
