/** The field normalisation of the struct pass (src/compiler.ts:101-106): the body is
    split on `;`, every segment trimmed, blank segments dropped, each field given its
    `;` back, and the fields joined with a new line and two spaces. */
module StructBody {
  import opened Chars
  import opened Strings

  /** A normalised field: non-empty trimmed text without `;`, followed by one `;`. */
  predicate IsField(f: string) {
    && |f| >= 2
    && f[|f| - 1] == ';'
    && ';' !in f[..|f| - 1]
    && Trimmed(f[..|f| - 1])
  }

  /** `field.endsWith(';') ? field : field + ';'` */
  function Terminated(f: string): string {
    if |f| > 0 && f[|f| - 1] == ';' then f else f + ";"
  }

  /** `.map(trim).filter(field => field.length > 0).map(Terminated)`, fused. */
  function Fields(segments: seq<string>): (fs: seq<string>)
    requires forall seg <- segments :: ';' !in seg
    ensures forall f <- fs :: IsField(f)
    ensures |fs| <= |segments|
  {
    if segments == [] then []
    else
      var seg := segments[0];
      var t := Trim(seg);
      assert ';' !in t by {
        var b := TrimBounds(seg);
        forall k | 0 <= k < |t|
          ensures t[k] != ';'
        {
          assert t[k] == seg[b.0 + k];
          assert seg[b.0 + k] in seg;
        }
      }
      if |t| > 0 then
        assert Terminated(t) == t + ";";
        assert (t + ";")[..|t|] == t;
        [Terminated(t)] + Fields(segments[1..])
      else
        Fields(segments[1..])
  }

  function FieldList(body: string): seq<string> {
    Fields(Split(body, ';'))
  }

  /** The text between the braces of the emitted type literal. */
  function TypeBody(body: string): string {
    Join(FieldList(body), "\n  ")
  }

  /** One `;`-separated piece of a struct body as it may be written: white space, the
      field's text, white space. A blank piece (`a;;b`, `a; ;b`) has empty text, and the
      last piece is the one after the final `;`, or a field written without one. */
  datatype Piece = Piece(lead: string, text: string, trail: string)

  predicate GoodPiece(p: Piece) {
    AllIn(p.lead, Space) && AllIn(p.trail, Space) && Trimmed(p.text) && ';' !in p.text
  }

  function Written(p: Piece): string {
    p.lead + p.text + p.trail
  }

  /** The body that writes the pieces one after the other, a `;` between each two. */
  function Layout(ps: seq<Piece>): string
    requires |ps| >= 1
  {
    if |ps| == 1 then Written(ps[0]) else Written(ps[0]) + ";" + Layout(ps[1..])
  }

  /** The fields the pieces declare: every non-blank text, with one `;` after it. */
  function Declared(ps: seq<Piece>): seq<string> {
    if ps == [] then []
    else (if ps[0].text == [] then [] else [ps[0].text + ";"]) + Declared(ps[1..])
  }

  /** The segments `split(';')` cuts a layout into. */
  function Segments(ps: seq<Piece>): seq<string> {
    if ps == [] then [] else [Written(ps[0])] + Segments(ps[1..])
  }

  lemma NoSemicolon(p: Piece)
    requires GoodPiece(p)
    ensures ';' !in Written(p)
  {
    forall k | 0 <= k < |Written(p)|
      ensures Written(p)[k] != ';'
    {
      if k < |p.lead| {
        assert IsSpace(p.lead[k]);
      } else if k < |p.lead| + |p.text| {
        assert Written(p)[k] == p.text[k - |p.lead|];
        assert p.text[k - |p.lead|] in p.text;
      } else {
        assert IsSpace(p.trail[k - |p.lead| - |p.text|]);
      }
    }
  }

  lemma {:induction false} SegmentsJoin(ps: seq<Piece>)
    requires |ps| >= 1
    requires forall p <- ps :: GoodPiece(p)
    ensures |Segments(ps)| == |ps|
    ensures forall seg <- Segments(ps) :: ';' !in seg
    ensures Join(Segments(ps), ";") == Layout(ps)
    decreases |ps|
  {
    var p := ps[0];
    assert p in ps;
    NoSemicolon(p);
    if |ps| > 1 {
      assert forall p' <- ps[1..] :: p' in ps;
      SegmentsJoin(ps[1..]);
      assert Segments(ps) == [Written(p)] + Segments(ps[1..]);
    } else {
      assert Segments(ps) == [Written(p)];
    }
  }

  lemma {:induction false} FieldsOfSegments(ps: seq<Piece>)
    requires forall p <- ps :: GoodPiece(p)
    requires forall seg <- Segments(ps) :: ';' !in seg
    ensures Fields(Segments(ps)) == Declared(ps)
    decreases |ps|
  {
    if ps != [] {
      var p := ps[0];
      assert p in ps;
      TrimExact(p.lead, p.text, p.trail);
      assert Segments(ps)[0] == Written(p);
      assert Segments(ps)[1..] == Segments(ps[1..]);
      if p.text != [] {
        assert p.text[|p.text| - 1] in p.text;
        assert Terminated(p.text) == p.text + ";";
      }
      assert forall p' <- ps[1..] :: p' in ps;
      FieldsOfSegments(ps[1..]);
    }
  }

  /** Pieces written with any white space around them normalise to their fields, in
      order: a field gets exactly one `;` whether or not one followed it (the last
      piece), and blank pieces are dropped. */
  lemma FieldListOfLayout(ps: seq<Piece>)
    requires |ps| >= 1
    requires forall p <- ps :: GoodPiece(p)
    ensures FieldList(Layout(ps)) == Declared(ps)
  {
    SegmentsJoin(ps);
    SplitJoin(Segments(ps), ';');
    FieldsOfSegments(ps);
  }

  lemma LayoutCons(p: Piece, ps: seq<Piece>)
    requires |ps| >= 1
    ensures Layout([p] + ps) == Written(p) + ";" + Layout(ps)
  {
    var q := [p] + ps;
    assert q[0] == p && q[1..] == ps;
  }

  lemma DeclaredCons(p: Piece, ps: seq<Piece>)
    ensures Declared([p] + ps) == Declared([p]) + Declared(ps)
  {
    var q := [p] + ps;
    assert q[0] == p && q[1..] == ps;
    assert [p][1..] == [];
  }

  /** The layout of three pieces and the fields they declare. */
  lemma LayoutThree(p1: Piece, p2: Piece, p3: Piece)
    ensures Layout([p1, p2, p3]) == Written(p1) + ";" + Written(p2) + ";" + Written(p3)
    ensures Declared([p1, p2, p3]) == Declared([p1]) + Declared([p2]) + Declared([p3])
  {
    LayoutCons(p2, [p3]);
    LayoutCons(p1, [p2] + [p3]);
    DeclaredCons(p2, [p3]);
    DeclaredCons(p1, [p2] + [p3]);
    assert [p1] + ([p2] + [p3]) == [p1, p2, p3];
  }

  /** Fields written on their own lines, as in the compiler's first struct test, keep
      their order and their one `;` each. */
  lemma FieldsOnLines(ws: string, f1: string, f2: string, end: string)
    requires AllIn(ws, Space) && AllIn(end, Space)
    requires GoodPiece(Piece("", f1, "")) && GoodPiece(Piece("", f2, "")) && f1 != [] && f2 != []
    ensures FieldList(ws + f1 + ";" + ws + f2 + ";" + end) == [f1 + ";", f2 + ";"]
  {
    var p1, p2, p3 := Piece(ws, f1, ""), Piece(ws, f2, ""), Piece(end, "", "");
    assert AllIn([], Space);
    LayoutThree(p1, p2, p3);
    assert Written(p1) == ws + f1 && Written(p2) == ws + f2 && Written(p3) == end;
    assert Layout([p1, p2, p3]) == ws + f1 + ";" + ws + f2 + ";" + end;
    assert Declared([p1]) == [f1 + ";"] && Declared([p2]) == [f2 + ";"] && Declared([p3]) == [];
    FieldListOfLayout([p1, p2, p3]);
  }

  /** A last field written without `;` gets one. */
  lemma LastFieldTerminated(lead: string, text: string, trail: string)
    requires GoodPiece(Piece(lead, text, trail)) && text != []
    ensures FieldList(lead + text + trail) == [text + ";"]
  {
    var ps := [Piece(lead, text, trail)];
    FieldListOfLayout(ps);
    assert Declared(ps[1..]) == [];
  }

  /** A blank piece between two fields is dropped. */
  lemma BlankPieceDropped(a: string, ws: string, b: string)
    requires GoodPiece(Piece("", a, "")) && GoodPiece(Piece("", b, "")) && a != [] && b != []
    requires AllIn(ws, Space)
    ensures FieldList(a + ";" + ws + ";" + b) == [a + ";", b + ";"]
  {
    var p1, p2, p3 := Piece("", a, ""), Piece(ws, "", ""), Piece("", b, "");
    assert AllIn([], Space);
    LayoutThree(p1, p2, p3);
    assert Written(p1) == a && Written(p2) == ws && Written(p3) == b;
    assert Layout([p1, p2, p3]) == a + ";" + ws + ";" + b;
    assert Declared([p1]) == [a + ";"] && Declared([p2]) == [] && Declared([p3]) == [b + ";"];
    FieldListOfLayout([p1, p2, p3]);
  }

  /** The pieces of the emitted type body: the first field unindented, the others after
      a new line and two spaces, each followed by its `;`, and nothing after the last. */
  function Rendered(fs: seq<string>, first: bool): (ps: seq<Piece>)
    requires forall f <- fs :: IsField(f)
    ensures |ps| >= 1
  {
    if fs == [] then [Piece("", "", "")]
    else
      assert fs[0] in fs && IsField(fs[0]);
      [Piece(if first then "" else "\n  ", fs[0][..|fs[0]| - 1], "")] + Rendered(fs[1..], false)
  }

  lemma {:induction false} RenderedGood(fs: seq<string>, first: bool)
    requires forall f <- fs :: IsField(f)
    ensures forall p <- Rendered(fs, first) :: GoodPiece(p)
    decreases |fs|
  {
    if fs != [] {
      assert fs[0] in fs;
      assert forall f' <- fs[1..] :: f' in fs;
      RenderedGood(fs[1..], false);
      var ind := if first then "" else "\n  ";
      assert AllIn(ind, Space);
    }
  }

  lemma {:induction false} RenderedDeclared(fs: seq<string>, first: bool)
    requires forall f <- fs :: IsField(f)
    ensures Declared(Rendered(fs, first)) == fs
    decreases |fs|
  {
    if fs != [] {
      var f := fs[0];
      assert f in fs;
      assert forall f' <- fs[1..] :: f' in fs;
      var r := Rendered(fs, first);
      var ind := if first then "" else "\n  ";
      assert r == [Piece(ind, f[..|f| - 1], "")] + Rendered(fs[1..], false);
      assert r[1..] == Rendered(fs[1..], false);
      RenderedDeclared(fs[1..], false);
      assert f[..|f| - 1] + ";" == f;
      assert Declared(r) == [f] + fs[1..];
      assert [f] + fs[1..] == fs;
    }
  }

  /** The joined fields are the layout of the rendered pieces. */
  lemma {:induction false} RenderedLayout(fs: seq<string>, first: bool)
    requires forall f <- fs :: IsField(f)
    ensures (if first then "" else if fs == [] then "" else "\n  ") + Join(fs, "\n  ")
         == Layout(Rendered(fs, first))
    decreases |fs|
  {
    if fs != [] {
      var f := fs[0];
      assert f in fs;
      assert forall f' <- fs[1..] :: f' in fs;
      var ind := if first then "" else "\n  ";
      var head := Piece(ind, f[..|f| - 1], "");
      var tail := Rendered(fs[1..], false);
      assert Rendered(fs, first) == [head] + tail;
      LayoutCons(head, tail);
      assert Written(head) + ";" == ind + f by {
        assert f[..|f| - 1] + ";" == f;
      }
      RenderedLayout(fs[1..], false);
      if |fs| == 1 {
        assert Join(fs, "\n  ") == f;
        assert Layout(tail) == "";
      } else {
        assert Join(fs, "\n  ") == f + "\n  " + Join(fs[1..], "\n  ");
        assert Layout(tail) == "\n  " + Join(fs[1..], "\n  ");
      }
    }
  }

  /** Normalising the emitted type body again gives the same fields: the struct
      pass's field layout is a fixed point of its own normalisation. */
  lemma FieldListStable(body: string)
    ensures FieldList(TypeBody(body)) == FieldList(body)
  {
    var fs := FieldList(body);
    RenderedGood(fs, true);
    RenderedDeclared(fs, true);
    RenderedLayout(fs, true);
    assert TypeBody(body) == Layout(Rendered(fs, true));
    FieldListOfLayout(Rendered(fs, true));
  }

}
