/** Two small fonts on which parts of the glyph code disagree with each other. */
module GlyphWitnesses {
  import opened MachineInts
  import opened Numerals
  import opened CffBuffer
  import opened GlyphOutline
  import opened Charstring
  import opened CharstringContext
  import opened CurveFlattening
  import opened SubroutineInlining

  /** A font whose only glyph has the given code. */
  ghost predicate OnlyGlyph(font: Font, code: seq<byte>) {
    font.charstrings == NewBuf(EncodeIndex([code], 1))
  }

  lemma CodeOfOnlyGlyph(font: Font, code: seq<byte>)
    requires OnlyGlyph(font, code) && |code| < 0xFF
    ensures Glyph(font, 0) == Exec(font, NewBuf(code), 0, INITIAL)
  {
    var items := [code];
    assert items[..0] == [] && Concat(items[..0]) == [];
    assert Concat(items) == code;
    assert Pow256(1) == 0x100 * Pow256(0);
    hide EncodeIndex, IndexItem, IndexCount, Concat, Exec;
    IndexRoundTrip(items, 1, 0);
  }

  // ---------- Single steps ----------

  /** An operator, when the stack holds one number. */
  function AfterOperator(op: byte, path: Path, v: real): Path
    requires op == 0x06 || op == 0x16
  {
    if op == 0x06 then Draw(path, [Line(v, 0.0)]) else MoveBy(path, v, 0.0)
  }

  function Drawing(path: Path, inHeader: bool): State { State.State([], inHeader, 0, path) }

  lemma OperatorStep(font: Font, op: byte, tail: seq<byte>, path: Path, inHeader: bool, v: real)
    requires op == 0x06 || op == 0x16
    ensures var b := NewBuf([op] + tail);
            Step(font, b, State.State([v], inHeader, 0, path)) ==
            Next(Drawing(AfterOperator(op, path, v), inHeader && op == 0x06), Forward(b, 1))
  {
    hide FlexSegments, Draw, MoveBy, Subr, Number;
    if op == 0x06 {
      assert AlternatingLines([v], true) == [Line(v, 0.0)];
    }
  }

  /** A number and an operator that takes it. */
  lemma OperandAndOperator(font: Font, n: int, op: byte, tail: seq<byte>, path: Path, inHeader: bool)
    requires -0x8000 <= n < 0x8000 && (op == 0x06 || op == 0x16)
    ensures Exec(font, NewBuf(EncodeNumber(n) + ([op] + tail)), 0, Drawing(path, inHeader))
         == Exec(font, NewBuf(tail), 0, Drawing(AfterOperator(op, path, n as real), inHeader && op == 0x06))
  {
    hide Exec, EncodeNumber, Step, AfterOperator;
    var st, b := Drawing(path, inHeader), NewBuf([op] + tail);
    PushHere(font, n, [op] + tail, 0, st);
    assert Pushed(st, n) == State.State([n as real], inHeader, 0, path);
    OperatorStep(font, op, tail, path, inHeader, n as real);
    ExecStep(font, b, 0, Pushed(st, n));
    assert Tail(Forward(b, 1)) == tail == Tail(NewBuf(tail));
    ExecSame(font, Forward(b, 1), NewBuf(tail), 0,
             Drawing(AfterOperator(op, path, n as real), inHeader && op == 0x06));
  }

  /** `endchar` behind everything. */
  lemma EndHere(font: Font, path: Path, inHeader: bool)
    ensures Exec(font, NewBuf([0x0E]), 0, Drawing(path, inHeader)) == Finished(ClosePath(path))
  {
    hide PathSegments, FlexSegments, Draw, MoveBy, Subr, Number, ClosePath;
    assert Step(font, NewBuf([0x0E]), Drawing(path, inHeader)) == EndChar(ClosePath(path));
    hide Step;
  }

  /** Two operands with their operators, then `endchar`. */
  lemma TwoOperators(font: Font, n1: int, op1: byte, n2: int, op2: byte)
    requires -0x8000 <= n1 < 0x8000 && -0x8000 <= n2 < 0x8000
    requires op1 in [0x06, 0x16] && op2 in [0x06, 0x16]
    requires OnlyGlyph(font, EncodeNumber(n1) + ([op1] + (EncodeNumber(n2) + [op2, 0x0E])))
    ensures var first := AfterOperator(op1, EMPTY_PATH, n1 as real);
            Glyph(font, 0) == Finished(ClosePath(AfterOperator(op2, first, n2 as real)))
  {
    hide Exec, EncodeNumber, AfterOperator, Glyph, ClosePath, OnlyGlyph;
    assert |EncodeNumber(n1)| <= 3 && |EncodeNumber(n2)| <= 3 by { NumberIsShort(n1); NumberIsShort(n2); }
    var rest := EncodeNumber(n2) + [op2, 0x0E];
    var first := AfterOperator(op1, EMPTY_PATH, n1 as real);
    CodeOfOnlyGlyph(font, EncodeNumber(n1) + ([op1] + rest));
    OperandAndOperator(font, n1, op1, rest, EMPTY_PATH, true);
    assert [op2] + [0x0E] == [op2, 0x0E];
    OperandAndOperator(font, n2, op2, [0x0E], first, op1 == 0x06);
    EndHere(font, AfterOperator(op2, first, n2 as real), op1 == 0x06 && op2 == 0x06);
  }

  lemma NumberIsShort(n: int)
    requires -0x8000 <= n < 0x8000
    ensures |EncodeNumber(n)| <= 3
  {
    hide ToBigEndian;
  }

  // ---------- A line before the first move ----------

  /** `1 hlineto -1 hmoveto endchar`. */
  const LINE_FIRST: seq<byte> := [140, 0x06, 138, 0x16, 0x0E]

  lemma LineFirstPath(font: Font)
    requires OnlyGlyph(font, LINE_FIRST)
    ensures var glyph := Glyph(font, 0);
            && glyph.Finished?
            && glyph.path.out == [Point(VLine, 1.0, 0.0), Point(VLine, 0.0, 0.0), Point(VMove, 0.0, 0.0)]
  {
    hide Glyph, Point;
    assert EncodeNumber(1) == [140] && EncodeNumber(-1) == [138];
    assert LINE_FIRST == [140] + ([0x06 as byte] + ([138] + [0x16, 0x0E]));
    TwoOperators(font, 1, 0x06, -1, 0x16);
    var first := AfterOperator(0x06, EMPTY_PATH, 1.0);
    assert [Line(1.0, 0.0)][..0] == [];
    assert first == Path.Path(1.0, 0.0, 0.0, 0.0, [Point(VLine, 1.0, 0.0)]);
  }

  /** The two lines come before the only move. They are in no contour, so the contour lengths add up to one
      point of three, and the rasterizer takes the first point for the contour. */
  lemma LineBeforeMove(font: Font, style: Style)
    requires OnlyGlyph(font, LINE_FIRST)
    ensures Glyph(font, 0).Finished?
    ensures var vs := StoredAll(Glyph(font, 0).path.out);
            && vs == [Point(VLine, 1.0, 0.0), Point(VLine, 0.0, 0.0), Point(VMove, 0.0, 0.0)]
            && Lengths(style, vs) == [1]
            && Points(style, vs) == [At(1, 0), At(0, 0), At(0, 0)]
  {
    hide Glyph;
    LineFirstPath(font);
    var line, back, move := Point(VLine, 1.0, 0.0), Point(VLine, 0.0, 0.0), Point(VMove, 0.0, 0.0);
    assert StoredAll([line, back, move]) == [line, back, move];
    NoVertices(style);
    LengthsSnoc(style, [], line);
    LengthsSnoc(style, [line], back);
    LengthsSnoc(style, [line, back], move);
    assert [] + [line] == [line] && [line] + [back] == [line, back];
    assert [line, back] + [move] == [line, back, move];
  }

  // ---------- A glyph wider than 16 bits ----------

  /** `20000 hmoveto 20000 hmoveto endchar`. */
  const WIDE: seq<byte> := [28, 0x4E, 0x20, 0x16, 28, 0x4E, 0x20, 0x16, 0x0E]

  lemma WidePath(font: Font)
    requires OnlyGlyph(font, WIDE)
    ensures var glyph := Glyph(font, 0);
            glyph.Finished? && glyph.path.out == [Point(VMove, 20000.0, 0.0), Point(VMove, 40000.0, 0.0)]
  {
    hide Glyph, Point;
    WideNumber();
    assert WIDE == [28, 0x4E, 0x20] + ([0x16 as byte] + ([28, 0x4E, 0x20] + [0x16, 0x0E]));
    TwoOperators(font, 20000, 0x16, 20000, 0x16);
    var first := AfterOperator(0x16, EMPTY_PATH, 20000.0);
    assert first == Path.Path(20000.0, 0.0, 20000.0, 0.0, [Point(VMove, 20000.0, 0.0)]);
  }

  lemma WideNumber()
    ensures EncodeNumber(20000) == [28, 0x4E, 0x20]
  {
    assert ToBigEndian(20000, 2) == ToBigEndian(78, 1) + [32];
    assert ToBigEndian(78, 1) == ToBigEndian(0, 0) + [78];
  }

  /** The box that is measured for the glyph is not the box of the vertices that are stored for it: it ends
      at 40000, and the vertex there is stored at -25536. */
  lemma WideGlyphBoxDiffers(font: Font, box: Box)
    requires OnlyGlyph(font, WIDE)
    requires Spans(box, PointsOfAll(Glyph(font, 0).PathOf().out))
    ensures Glyph(font, 0).Finished?
    ensures var vs := StoredAll(Glyph(font, 0).path.out);
            && vs == [Point(VMove, 20000.0, 0.0), Point(VMove, -25536.0, 0.0)]
            && box == Box.Box(20000, 0, 40000, 0) && !Spans(box, PointsOfAll(vs))
  {
    hide Glyph, Spans;
    WidePath(font);
    var near, far := Point(VMove, 20000.0, 0.0), Point(VMove, 40000.0, 0.0);
    var out := [near, far];
    BoxOfStoredVertices(box, out);
    assert StoredAll(out) == [near, Point(VMove, -25536.0, 0.0)];
    WidePoints(near, far);
    WideBox(box);
  }

  lemma WidePoints(near: Vertex, far: Vertex)
    requires near == Point(VMove, 20000.0, 0.0) && far == Point(VMove, 40000.0, 0.0)
    ensures PointsOfAll([near, far]) == [(20000, 0), (40000, 0)]
  {
    assert PointsOf(near) == [(20000, 0)] && PointsOf(far) == [(40000, 0)];
    assert [near, far][..1] == [near] && [near][..0] == [];
    assert PointsOfAll([near]) == PointsOfAll([]) + PointsOf(near);
  }

  lemma WideBox(box: Box)
    requires Spans(box, [(20000, 0), (40000, 0)])
    ensures box == Box.Box(20000, 0, 40000, 0)
  {
    var points := [(20000, 0), (40000, 0)];
    assert points[0] in points && points[1] in points;
    assert Inside(points[0], box) && Inside(points[1], box);
  }
}
