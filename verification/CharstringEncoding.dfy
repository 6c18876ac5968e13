/** Writing outlines as charstrings, and what the shorter operators abbreviate. */
module CharstringEncoding {
  import opened MachineInts
  import opened CffBuffer
  import opened GlyphOutline
  import opened Charstring
  import opened HintHeaders
  import opened Numerals
  import opened SubroutineInlining
  import opened Wrappers

  // ---------- Outlines ----------

  predicate Is16Bit(v: int) { -0x8000 <= v < 0x8000 }

  /** An outline that continues at (x, y) in a contour from (fx, fy): its differences have 16 bits, and it is back
      at the start of the contour before each move and at the end. */
  predicate Encodable(vs: seq<Vertex>, x: int, y: int, fx: int, fy: int) {
    if vs == [] then x == fx && y == fy
    else
      var v := vs[0];
      match v.kind
      case VMove =>
        && x == fx && y == fy && Is16Bit(v.x - x) && Is16Bit(v.y - y)
        && v.cx == v.cy == v.cx1 == v.cy1 == 0 && Encodable(vs[1..], v.x, v.y, v.x, v.y)
      case VLine =>
        && Is16Bit(v.x - x) && Is16Bit(v.y - y)
        && v.cx == v.cy == v.cx1 == v.cy1 == 0 && Encodable(vs[1..], v.x, v.y, fx, fy)
      case VCubic =>
        && Is16Bit(v.cx - x) && Is16Bit(v.cy - y) && Is16Bit(v.cx1 - v.cx) && Is16Bit(v.cy1 - v.cy)
        && Is16Bit(v.x - v.cx1) && Is16Bit(v.y - v.cy1) && Encodable(vs[1..], v.x, v.y, fx, fy)
      case VCurve => false
  }

  /** `rmoveto`, `rlineto` and `rrcurveto` with the differences of successive points, and `endchar`. */
  function OutlineBytes(vs: seq<Vertex>, x: int, y: int, fx: int, fy: int): seq<byte>
    requires Encodable(vs, x, y, fx, fy)
  {
    if vs == [] then [0x0E]
    else
      var v := vs[0];
      match v.kind
      case VMove => OperandBytes([v.x - x, v.y - y]) + ([0x15] + OutlineBytes(vs[1..], v.x, v.y, v.x, v.y))
      case VLine => OperandBytes([v.x - x, v.y - y]) + ([0x05] + OutlineBytes(vs[1..], v.x, v.y, fx, fy))
      case VCubic =>
        OperandBytes([v.cx - x, v.cy - y, v.cx1 - v.cx, v.cy1 - v.cy, v.x - v.cx1, v.y - v.cy1])
        + ([0x08] + OutlineBytes(vs[1..], v.x, v.y, fx, fy))
  }

  /** The pen and the contour start at whole numbers, and the vertices so far. */
  function At(x: int, y: int, fx: int, fy: int, out: seq<Vertex>): Path {
    Path.Path(x as real, y as real, fx as real, fy as real, out)
  }

  function Between(inHeader: bool, bits: nat, path: Path): State { State.State([], inHeader, bits, path) }

  lemma OperatorHere(font: Font, vs: seq<int>, op: byte, tail: seq<byte>, depth: nat, st: State, st': State)
    requires depth <= CALL_LIMIT && AreOperands(vs) && st.stack == []
    requires Step(font, NewBuf([op] + tail), st.(stack := Reals(vs))) == Next(st', Forward(NewBuf([op] + tail), 1))
    ensures Exec(font, NewBuf(OperandBytes(vs) + ([op] + tail)), depth, st) == Exec(font, NewBuf(tail), depth, st')
  {
    hide Exec, OperandBytes, Step;
    var b := NewBuf([op] + tail);
    PushAll(font, vs, [op] + tail, depth, st);
    assert st.stack + Reals(vs) == Reals(vs);
    ExecStep(font, b, depth, st.(stack := Reals(vs)));
    assert Tail(Forward(b, 1)) == tail == Tail(NewBuf(tail));
    ExecSame(font, Forward(b, 1), NewBuf(tail), depth, st');
  }

  lemma MoveStep(font: Font, dx: int, dy: int, tail: seq<byte>, h: bool, bits: nat, x: int, y: int, out: seq<Vertex>)
    ensures var b := NewBuf([0x15] + tail);
            Step(font, b, State.State(Reals([dx, dy]), h, bits, At(x, y, x, y, out))) ==
            Next(Between(false, bits, At(x + dx, y + dy, x + dx, y + dy,
                                         out + [Vertex(VMove, x + dx, y + dy, 0, 0, 0, 0)])), Forward(b, 1))
  {
    hide PathSegments, FlexSegments, Draw, Subr, Number, HintAction, CallAction;
    WholeNumber(x + dx);
    WholeNumber(y + dy);
  }

  lemma PathStep(font: Font, op: byte, tail: seq<byte>, st: State)
    requires IsPathOp(op) && PathSegments(op, st.stack).Some?
    ensures var b := NewBuf([op] + tail);
            Step(font, b, st) ==
            Next(st.(stack := [], path := Draw(st.path, PathSegments(op, st.stack).value)), Forward(b, 1))
  {
    hide PathSegments, FlexSegments, Draw, Subr, Number, HintAction, CallAction, MoveAction;
  }

  lemma DrawSingle(p: Path, s: Segment)
    ensures Draw(p, [s]) == DrawOne(p, s)
  {
    assert [s][..0] == [] && Draw(p, []) == p;
    hide DrawOne;
  }

  lemma OneLine(s: Operands)
    requires |s| == 2
    ensures PathSegments(0x05, s) == Some([Line(s[0], s[1])])
  {
    assert Lines(s, 1) == [Line(s[0], s[1])];
  }

  lemma OneCurve(s: Operands)
    requires |s| == 6
    ensures PathSegments(0x08, s) == Some([Curve(s[0], s[1], s[2], s[3], s[4], s[5])])
  {
    assert Curves(s, 1) == [CurveAt(s, 0)];
  }

  lemma LineDrawn(dx: int, dy: int, x: int, y: int, fx: int, fy: int, out: seq<Vertex>)
    ensures DrawOne(At(x, y, fx, fy, out), Line(dx as real, dy as real))
         == At(x + dx, y + dy, fx, fy, out + [Vertex(VLine, x + dx, y + dy, 0, 0, 0, 0)])
  {
    WholeNumber(x + dx);
    WholeNumber(y + dy);
  }

  lemma CurveDrawn(d: seq<int>, x: int, y: int, fx: int, fy: int, out: seq<Vertex>)
    requires |d| == 6
    ensures var x1, y1 := x + d[0], y + d[1];
            var x2, y2 := x1 + d[2], y1 + d[3];
            var x3, y3 := x2 + d[4], y2 + d[5];
            DrawOne(At(x, y, fx, fy, out), Curve(d[0] as real, d[1] as real, d[2] as real, d[3] as real,
                                                 d[4] as real, d[5] as real)) ==
            At(x3, y3, fx, fy, out + [Vertex(VCubic, x3, y3, x1, y1, x2, y2)])
  {
    WholeNumber(x + d[0]);
    WholeNumber(y + d[1]);
    WholeNumber(x + d[0] + d[2]);
    WholeNumber(y + d[1] + d[3]);
    WholeNumber(x + d[0] + d[2] + d[4]);
    WholeNumber(y + d[1] + d[3] + d[5]);
  }

  /** A line, wherever the pen is. */
  lemma LineHere(font: Font, dx: int, dy: int, tail: seq<byte>, depth: nat, h: bool, bits: nat, x: int, y: int,
                 fx: int, fy: int, out: seq<Vertex>)
    requires depth <= CALL_LIMIT && Is16Bit(dx) && Is16Bit(dy)
    ensures Exec(font, NewBuf(OperandBytes([dx, dy]) + ([0x05] + tail)), depth, Between(h, bits, At(x, y, fx, fy, out)))
         == Exec(font, NewBuf(tail), depth,
                 Between(h, bits, At(x + dx, y + dy, fx, fy, out + [Vertex(VLine, x + dx, y + dy, 0, 0, 0, 0)])))
  {
    hide Exec, OperandBytes, Step, PathSegments, Draw, DrawOne;
    var st, s := Between(h, bits, At(x, y, fx, fy, out)), Reals([dx, dy]);
    OneLine(s);
    PathStep(font, 0x05, tail, st.(stack := s));
    DrawSingle(st.path, Line(s[0], s[1]));
    LineDrawn(dx, dy, x, y, fx, fy, out);
    OperatorHere(font, [dx, dy], 0x05, tail, depth, st, st.(path := DrawOne(st.path, Line(s[0], s[1]))));
  }

  lemma CurveHere(font: Font, d: seq<int>, tail: seq<byte>, depth: nat, h: bool, bits: nat, x: int, y: int,
                  fx: int, fy: int, out: seq<Vertex>)
    requires depth <= CALL_LIMIT && |d| == 6 && AreOperands(d)
    ensures var x1, y1 := x + d[0], y + d[1];
            var x2, y2 := x1 + d[2], y1 + d[3];
            var x3, y3 := x2 + d[4], y2 + d[5];
            Exec(font, NewBuf(OperandBytes(d) + ([0x08] + tail)), depth, Between(h, bits, At(x, y, fx, fy, out))) ==
            Exec(font, NewBuf(tail), depth,
                 Between(h, bits, At(x3, y3, fx, fy, out + [Vertex(VCubic, x3, y3, x1, y1, x2, y2)])))
  {
    hide Exec, OperandBytes, Step, PathSegments, Draw, DrawOne;
    var st, s := Between(h, bits, At(x, y, fx, fy, out)), Reals(d);
    var curve := Curve(s[0], s[1], s[2], s[3], s[4], s[5]);
    OneCurve(s);
    PathStep(font, 0x08, tail, st.(stack := s));
    DrawSingle(st.path, curve);
    CurveDrawn(d, x, y, fx, fy, out);
    OperatorHere(font, d, 0x08, tail, depth, st, st.(path := DrawOne(st.path, curve)));
  }

  /** A move from where the contour started. */
  lemma MoveHere(font: Font, dx: int, dy: int, tail: seq<byte>, depth: nat, h: bool, bits: nat, x: int, y: int,
                 out: seq<Vertex>)
    requires depth <= CALL_LIMIT && Is16Bit(dx) && Is16Bit(dy)
    ensures Exec(font, NewBuf(OperandBytes([dx, dy]) + ([0x15] + tail)), depth, Between(h, bits, At(x, y, x, y, out)))
         == Exec(font, NewBuf(tail), depth,
                 Between(false, bits, At(x + dx, y + dy, x + dx, y + dy,
                                         out + [Vertex(VMove, x + dx, y + dy, 0, 0, 0, 0)])))
  {
    hide Exec, OperandBytes, Step;
    var st := Between(h, bits, At(x, y, x, y, out));
    MoveStep(font, dx, dy, tail, h, bits, x, y, out);
    OperatorHere(font, [dx, dy], 0x15, tail, depth, st,
                 Between(false, bits, At(x + dx, y + dy, x + dx, y + dy,
                                         out + [Vertex(VMove, x + dx, y + dy, 0, 0, 0, 0)])));
  }

  lemma EndHere(font: Font, depth: nat, h: bool, bits: nat, x: int, y: int, out: seq<Vertex>)
    requires depth <= CALL_LIMIT
    ensures Exec(font, NewBuf([0x0E]), depth, Between(h, bits, At(x, y, x, y, out))) == Finished(At(x, y, x, y, out))
  {
    hide PathSegments, FlexSegments, Draw, MoveBy, Subr, Number, HintAction, CallAction, MoveAction;
    assert Step(font, NewBuf([0x0E]), Between(h, bits, At(x, y, x, y, out))) == EndChar(At(x, y, x, y, out));
    hide Step;
  }

  /** The bytes of an outline evaluate to its vertices, in front of what has been drawn. */
  lemma {:induction false} OutlineRoundTrip(font: Font, vs: seq<Vertex>, depth: nat, h: bool, bits: nat,
                                            x: int, y: int, fx: int, fy: int, out: seq<Vertex>)
    requires depth <= CALL_LIMIT && Encodable(vs, x, y, fx, fy)
    ensures var o := Exec(font, NewBuf(OutlineBytes(vs, x, y, fx, fy)), depth, Between(h, bits, At(x, y, fx, fy, out)));
            o.Finished? && o.path.out == out + vs
    decreases |vs|
  {
    hide Exec, OperandBytes;
    if vs == [] {
      EndHere(font, depth, h, bits, x, y, out);
      assert out + vs == out;
    } else {
      var v, rest := vs[0], vs[1..];
      assert out + vs == out + [v] + rest;
      match v.kind
      case VMove =>
        MoveHere(font, v.x - x, v.y - y, OutlineBytes(rest, v.x, v.y, v.x, v.y), depth, h, bits, x, y, out);
        OutlineRoundTrip(font, rest, depth, false, bits, v.x, v.y, v.x, v.y, out + [v]);
      case VLine =>
        LineHere(font, v.x - x, v.y - y, OutlineBytes(rest, v.x, v.y, fx, fy), depth, h, bits, x, y, fx, fy, out);
        OutlineRoundTrip(font, rest, depth, h, bits, v.x, v.y, fx, fy, out + [v]);
      case VCubic =>
        CurveHere(font, [v.cx - x, v.cy - y, v.cx1 - v.cx, v.cy1 - v.cy, v.x - v.cx1, v.y - v.cy1],
                  OutlineBytes(rest, v.x, v.y, fx, fy), depth, h, bits, x, y, fx, fy, out);
        OutlineRoundTrip(font, rest, depth, h, bits, v.x, v.y, fx, fy, out + [v]);
    }
  }

  /** An outline of closed contours that is written into a font is the glyph that is read from it. */
  lemma GlyphRoundTrip(font: Font, items: seq<seq<byte>>, offSize: nat, k: nat, vs: seq<Vertex>)
    requires 1 <= offSize <= 4 && k < |items| < 0x1_0000
    requires 1 + |Concat(items)| < Pow256(offSize) && 1 + |Concat(items)| < 0x8000_0000
    requires font.charstrings == NewBuf(EncodeIndex(items, offSize))
    requires Encodable(vs, 0, 0, 0, 0) && items[k] == OutlineBytes(vs, 0, 0, 0, 0)
    ensures Glyph(font, k).Finished? && Glyph(font, k).path.out == vs
  {
    hide Exec, EncodeIndex, IndexItem, Concat, Pow256, OutlineBytes, Encodable;
    IndexRoundTrip(items, offSize, k);
    assert INITIAL == Between(true, 0, At(0, 0, 0, 0, []));
    OutlineRoundTrip(font, vs, 0, true, 0, 0, 0, 0, 0, []);
    assert [] + vs == vs;
  }
}
