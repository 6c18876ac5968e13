/** Meaning of Type 2 charstrings (Adobe Technical Note 5177) as the interpreter implements them:
    operators denote path segments, and subroutine calls are nested evaluations. */
module Charstring {
  import opened MachineInts
  import opened CffBuffer
  import opened GlyphOutline
  import opened Numerals
  import opened Wrappers

  // ---------- Paths ----------

  /** The pen, the start of the current contour, and the vertices produced so far. */
  datatype Path = Path(x: real, y: real, firstX: real, firstY: real, out: seq<Vertex>)

  const EMPTY_PATH := Path.Path(0.0, 0.0, 0.0, 0.0, [])

  function Point(kind: VertexKind, x: real, y: real): Vertex {
    Vertex(kind, Trunc(x), Trunc(y), 0, 0, 0, 0)
  }

  function ClosePath(p: Path): Path {
    if p.firstX != p.x || p.firstY != p.y then p.(out := p.out + [Point(VLine, p.firstX, p.firstY)]) else p
  }

  function MoveBy(p: Path, dx: real, dy: real): Path {
    var x, y := p.x + dx, p.y + dy;
    Path.Path(x, y, x, y, ClosePath(p).out + [Point(VMove, x, y)])
  }

  /** A path segment in coordinates relative to its start, each curve point relative to the one before. */
  datatype Segment =
    | Line(dx: real, dy: real)
    | Curve(dx1: real, dy1: real, dx2: real, dy2: real, dx3: real, dy3: real)

  function DrawOne(p: Path, s: Segment): Path {
    match s
    case Line(dx, dy) =>
      var x, y := p.x + dx, p.y + dy;
      p.(x := x, y := y, out := p.out + [Point(VLine, x, y)])
    case Curve(dx1, dy1, dx2, dy2, dx3, dy3) =>
      var x1, y1 := p.x + dx1, p.y + dy1;
      var x2, y2 := x1 + dx2, y1 + dy2;
      var x3, y3 := x2 + dx3, y2 + dy3;
      p.(x := x3, y := y3,
         out := p.out + [Vertex(VCubic, Trunc(x3), Trunc(y3), Trunc(x1), Trunc(y1), Trunc(x2), Trunc(y2))])
  }

  function Draw(p: Path, segments: seq<Segment>): (r: Path)
    ensures |r.out| == |p.out| + |segments|
    ensures p.out <= r.out
  {
    if segments == [] then p
    else DrawOne(Draw(p, segments[..|segments| - 1]), segments[|segments| - 1])
  }

  // ---------- Operators that draw ----------

  /** At most 48 operands are pending at any time (TN 5177, appendix B). */
  const STACK_LIMIT := 48

  type Operands = s: seq<real> | |s| <= STACK_LIMIT witness []

  function Lines(s: seq<real>, n: nat): (r: seq<Segment>)
    requires 2 * n <= |s|
    ensures |r| == n
  {
    seq(n, k requires 0 <= k < n => Line(s[2 * k], s[2 * k + 1]))
  }

  function CurveAt(s: seq<real>, i: nat): Segment
    requires i + 6 <= |s|
  {
    Curve(s[i], s[i + 1], s[i + 2], s[i + 3], s[i + 4], s[i + 5])
  }

  function Curves(s: seq<real>, n: nat): (r: seq<Segment>)
    requires 6 * n <= |s|
    ensures |r| == n
  {
    seq(n, k requires 0 <= k < n => CurveAt(s, 6 * k))
  }

  /** One operand per line, alternately horizontal and vertical. */
  function AlternatingLines(s: seq<real>, horizontalFirst: bool): (r: seq<Segment>)
    ensures |r| == |s|
  {
    seq(|s|, k requires 0 <= k < |s| =>
      if (k % 2 == 0) == horizontalFirst then Line(s[k], 0.0) else Line(0.0, s[k]))
  }

  /** Four operands per curve, whose end tangents are alternately horizontal and vertical; a fifth
      operand on the last curve gives its end point the other coordinate. */
  function AlternatingCurve(s: seq<real>, i: nat, horizontal: bool): Segment
    requires i + 4 <= |s|
  {
    var extra := if |s| - i == 5 then s[i + 4] else 0.0;
    if horizontal then Curve(s[i], 0.0, s[i + 1], s[i + 2], extra, s[i + 3])
    else Curve(0.0, s[i], s[i + 1], s[i + 2], s[i + 3], extra)
  }

  function AlternatingCurves(s: seq<real>, horizontalFirst: bool): (r: seq<Segment>)
    ensures |r| == |s| / 4
  {
    seq(|s| / 4, k requires 0 <= k < |s| / 4 => AlternatingCurve(s, 4 * k, (k % 2 == 0) == horizontalFirst))
  }

  /** Curves that start and end in the same axis direction; an odd leading operand offsets the
      first curve across that axis. */
  function ParallelCurve(s: seq<real>, k: nat, horizontal: bool): Segment
    requires |s| % 2 + 4 * k + 4 <= |s|
  {
    var i := |s| % 2 + 4 * k;
    var across := if k == 0 && |s| % 2 == 1 then s[0] else 0.0;
    if horizontal then Curve(s[i], across, s[i + 1], s[i + 2], s[i + 3], 0.0)
    else Curve(across, s[i], s[i + 1], s[i + 2], 0.0, s[i + 3])
  }

  function ParallelCurves(s: seq<real>, horizontal: bool): (r: seq<Segment>)
    ensures |r| == (|s| - |s| % 2) / 4
  {
    var n := (|s| - |s| % 2) / 4;
    seq(n, k requires 0 <= k < n => ParallelCurve(s, k, horizontal))
  }

  /** The segments a one-byte path operator draws from its operands; `None` when there are too few. */
  function PathSegments(op: byte, s: Operands): Option<seq<Segment>>
    requires IsPathOp(op)
  {
    if op == 0x05 then if |s| < 2 then None else Some(Lines(s, |s| / 2))
    else if op == 0x06 || op == 0x07 then if |s| < 1 then None else Some(AlternatingLines(s, op == 0x06))
    else if op == 0x1F || op == 0x1E then if |s| < 4 then None else Some(AlternatingCurves(s, op == 0x1F))
    else if op == 0x08 then if |s| < 6 then None else Some(Curves(s, |s| / 6))
    else if op == 0x18 then
      if |s| < 8 then None
      else
        var n := (|s| - 2) / 6;
        Some(Curves(s, n) + [Line(s[6 * n], s[6 * n + 1])])
    else if op == 0x19 then
      if |s| < 8 then None
      else
        var n := (|s| - 6) / 2;
        Some(Lines(s, n) + [CurveAt(s, 2 * n)])
    else if |s| < 4 then None else Some(ParallelCurves(s, op == 0x1B))
  }

  predicate IsPathOp(op: byte) {
    op in {0x05, 0x06, 0x07, 0x08, 0x18, 0x19, 0x1A, 0x1B, 0x1E, 0x1F}
  }

  function Abs(x: real): real { if x < 0.0 then -x else x }

  /** The two curves of a flex operator; `None` for an unknown operator or too few operands. */
  function FlexSegments(op: byte, s: Operands): Option<seq<Segment>> {
    if op == 0x22 then
      if |s| < 7 then None
      else Some([Curve(s[0], 0.0, s[1], s[2], s[3], 0.0), Curve(s[4], 0.0, s[5], -s[2], s[6], 0.0)])
    else if op == 0x23 then
      if |s| < 13 then None
      else Some([CurveAt(s, 0), CurveAt(s, 6)])
    else if op == 0x24 then
      if |s| < 9 then None
      else Some([Curve(s[0], s[1], s[2], s[3], s[4], 0.0),
                 Curve(s[5], 0.0, s[6], s[7], s[8], -(s[1] + s[3] + s[7]))])
    else if op == 0x25 then
      if |s| < 11 then None
      else
        var dx := s[0] + s[2] + s[4] + s[6] + s[8];
        var dy := s[1] + s[3] + s[5] + s[7] + s[9];
        var alongX := Abs(dx) > Abs(dy);
        Some([CurveAt(s, 0),
              Curve(s[6], s[7], s[8], s[9], if alongX then s[10] else -dx, if alongX then -dy else s[10])])
    else None
  }

  // ---------- The machine ----------

  /** What the interpreter uses of a CFF font; `cidSubrs` are the local subroutines that the FDSelect
      table assigns to the glyph. */
  datatype Font = Font(charstrings: Buf, gsubrs: Buf, subrs: Buf, hasFdSelect: bool, cidSubrs: Buf)

  function LocalSubrs(font: Font): Buf { if font.hasFdSelect then font.cidSubrs else font.subrs }

  /** The bias added to subroutine numbers (TN 5177, section 4.7). */
  function Bias(count: nat): nat {
    if count >= 33900 then 32768 else if count >= 1240 then 1131 else 107
  }

  /** Subroutine number `n` before biasing; empty when there is none. */
  function Subr(idx: Buf, n: int): Buf {
    var count := IndexCount(idx);
    var i := n + Bias(count);
    if i < 0 || i >= count then EMPTY else IndexItem(idx, i)
  }

  lemma SubrAtStart(idx: Buf, n: int)
    ensures Subr(idx, n).cursor == 0
  {
  }

  /** In an INDEX of subroutines every one has a 16-bit number, one number each, and all other numbers have
      none. */
  lemma SubrNumbers(items: seq<seq<byte>>, offSize: nat, n: int)
    requires 1 <= offSize <= 4 && |items| < 0x1_0000
    requires 1 + |Concat(items)| < Pow256(offSize) && 1 + |Concat(items)| < 0x8000_0000
    ensures Bias(|items|) <= 0x8000 && |items| - 1 - Bias(|items|) < 0x8000
    ensures var k := n + (if |items| < 1240 then 107 else if |items| < 33900 then 1131 else 32768);
            Subr(NewBuf(EncodeIndex(items, offSize)), n) ==
            if 0 <= k < |items| then NewBuf(items[k]) else EMPTY
  {
    hide IndexItem, EncodeIndex, Concat, Pow256, ReadBe;
    var k := n + Bias(|items|);
    ReadHeader(items, offSize);
    if 0 <= k < |items| { IndexRoundTrip(items, offSize, k); }
  }

  datatype State = State(stack: Operands, inHeader: bool, maskBits: nat, path: Path)

  const INITIAL := State.State([], true, 0, EMPTY_PATH)

  datatype Action =
    | Next(st: State, b: Buf)
    | Call(st: State, b: Buf, callee: Buf)
    | Return(st: State)
    | EndChar(path: Path)
    | Error(path: Path)

  function Drawn(st: State, b: Buf, segments: Option<seq<Segment>>): Action {
    if segments.None? then Error(st.path)
    else Next(st.(stack := [], path := Draw(st.path, segments.value)), b)
  }

  function Top(s: Operands, k: nat): real
    requires 1 <= k <= |s|
  {
    s[|s| - k]
  }

  /** Hint operators: only the number of stems matters, as it sizes the mask bytes to skip. */
  function HintAction(op: byte, st: State, b: Buf): Action
    requires IsHintOp(op)
  {
    var stems := |st.stack| / 2;
    if op == 0x13 || op == 0x14 then
      var bits := st.maskBits + if st.inHeader then stems else 0;
      Next(State.State([], false, bits, st.path), Skip(b, (bits + 7) / 8))
    else
      Next(st.(stack := [], maskBits := st.maskBits + stems), b)
  }

  predicate IsHintOp(op: byte) { op in {0x01, 0x03, 0x12, 0x13, 0x14, 0x17} }

  function MoveAction(op: byte, st: State, b: Buf): Action
    requires IsMoveOp(op)
  {
    var s := st.stack;
    if |s| < (if op == 0x15 then 2 else 1) then Error(st.path)
    else
      var dx := if op == 0x15 then Top(s, 2) else if op == 0x16 then Top(s, 1) else 0.0;
      var dy := if op == 0x16 then 0.0 else Top(s, 1);
      Next(st.(stack := [], inHeader := false, path := MoveBy(st.path, dx, dy)), b)
  }

  predicate IsMoveOp(op: byte) { op in {0x04, 0x15, 0x16} }

  function CallAction(font: Font, op: byte, st: State, b: Buf): Action {
    var s := st.stack;
    if |s| < 1 then Error(st.path)
    else
      var callee := Subr(if op == 0x0A then LocalSubrs(font) else font.gsubrs, Trunc(Top(s, 1)));
      if |callee.data| == 0 then Error(st.path)
      else Call(st.(stack := s[..|s| - 1]), b, callee)
  }

  function PushAction(st: State, b: Buf): Action
    requires b.cursor < |b.data| && IsNumberByte(b.data[b.cursor])
  {
    var v := Number(b);
    if |st.stack| >= STACK_LIMIT then Error(st.path)
    else Next(st.(stack := st.stack + [v.value]), v.rest)
  }

  /** One operator or operand, at the cursor of `b`; it always consumes something. */
  function Step(font: Font, b: Buf, st: State): (a: Action)
    requires b.cursor < |b.data|
    ensures a.Next? || a.Call? ==> a.b.data == b.data && b.cursor < a.b.cursor
  {
    var op := b.data[b.cursor];
    var rest := b.(cursor := b.cursor + 1);
    if IsHintOp(op) then HintAction(op, st, rest)
    else if IsMoveOp(op) then MoveAction(op, st, rest)
    else if IsPathOp(op) then Drawn(st, rest, PathSegments(op, st.stack))
    else if op == 0x0C then
      var op2 := Get8(rest);
      Drawn(st, op2.rest, FlexSegments(op2.value, st.stack))
    else if op == 0x0A || op == 0x1D then CallAction(font, op, st, rest)
    else if op == 0x0B then Return(st)
    else if op == 0x0E then EndChar(ClosePath(st.path))
    else if IsNumberByte(op) then PushAction(st, b)
    else Error(st.path)
  }

  /** Subroutine calls nest at most ten deep (TN 5177, appendix B). */
  const CALL_LIMIT := 10

  datatype Outcome =
    | Returned(st: State)
    | Finished(path: Path)
    | Failed(path: Path)
  {
    function PathOf(): Path { match this case Returned(s) => s.path case Finished(p) => p case Failed(p) => p }
  }

  /** The meaning of the code from the cursor of `b` on, `depth` calls deep: a subroutine call is a
      nested evaluation after which the caller goes on. Terminates on every font. */
  function Exec(font: Font, b: Buf, depth: nat, st: State): (o: Outcome)
    requires depth <= CALL_LIMIT
    ensures o.Returned? ==> depth > 0
    decreases CALL_LIMIT - depth, Remaining(b)
  {
    if b.cursor >= |b.data| then Failed(st.path)
    else
      match Step(font, b, st)
      case Next(st', rest) => Exec(font, rest, depth, st')
      case Call(st', rest, callee) =>
        if depth >= CALL_LIMIT then Failed(st'.path)
        else
          var r := Exec(font, callee, depth + 1, st');
          if r.Returned? then Exec(font, rest, depth, r.st) else r
      case Return(st') => if depth == 0 then Failed(st'.path) else Returned(st')
      case EndChar(path) => Finished(path)
      case Error(path) => Failed(path)
  }

  function Glyph(font: Font, index: int): Outcome {
    Exec(font, IndexItem(font.charstrings, index), 0, INITIAL)
  }

  // ---------- Vertices are only ever appended ----------

  function ActionPath(a: Action): Path {
    match a
    case Next(st, _) => st.path
    case Call(st, _, _) => st.path
    case Return(st) => st.path
    case EndChar(p) => p
    case Error(p) => p
  }

  lemma StepExtends(font: Font, b: Buf, st: State)
    requires b.cursor < |b.data|
    ensures st.path.out <= ActionPath(Step(font, b, st)).out
  {
    hide IndexItem, Number, IndexCount, Skip, PathSegments, FlexSegments;
  }

  lemma {:induction false} ExecExtends(font: Font, b: Buf, depth: nat, st: State)
    requires depth <= CALL_LIMIT
    ensures st.path.out <= Exec(font, b, depth, st).PathOf().out
    decreases CALL_LIMIT - depth, Remaining(b)
  {
    hide Step;
    if b.cursor < |b.data| {
      StepExtends(font, b, st);
      match Step(font, b, st)
      case Next(st', rest) => ExecExtends(font, rest, depth, st');
      case Call(st', rest, callee) =>
        if depth < CALL_LIMIT {
          ExecExtends(font, callee, depth + 1, st');
          var r := Exec(font, callee, depth + 1, st');
          if r.Returned? { ExecExtends(font, rest, depth, r.st); }
        }
      case Return(_) =>
      case EndChar(_) =>
      case Error(_) =>
    }
  }

  // ---------- Every contour of an accepted glyph is closed ----------

  /** The start of the contour that vertex `i` belongs to: its move, or the origin before any move. */
  function Anchor(vs: seq<Vertex>, i: nat): (int, int)
    requires i < |vs|
  {
    if vs[i].kind.VMove? then (vs[i].x, vs[i].y) else if i == 0 then (0, 0) else Anchor(vs, i - 1)
  }

  predicate BackAtAnchor(vs: seq<Vertex>, i: nat)
    requires i < |vs|
  {
    Anchor(vs, i) == (vs[i].x, vs[i].y)
  }

  /** Each contour that another one follows has returned to its start. */
  ghost predicate EarlierContoursClosed(vs: seq<Vertex>) {
    forall i | 0 <= i < |vs| - 1 && vs[i + 1].kind.VMove? :: BackAtAnchor(vs, i)
  }

  /** The vertices agree with the pen: the last one is where the pen is, and its contour starts where
      the pen's contour starts. */
  ghost predicate Consistent(p: Path) {
    && EarlierContoursClosed(p.out)
    && (p.out == [] ==> p.x == p.y == p.firstX == p.firstY == 0.0)
    && (p.out != [] ==>
          var last := |p.out| - 1;
          && (p.out[last].x, p.out[last].y) == (Trunc(p.x), Trunc(p.y))
          && Anchor(p.out, last) == (Trunc(p.firstX), Trunc(p.firstY)))
  }

  ghost predicate AllContoursClosed(vs: seq<Vertex>) {
    EarlierContoursClosed(vs) && (vs != [] ==> BackAtAnchor(vs, |vs| - 1))
  }

  lemma {:induction false} AnchorOfPrefix(vs: seq<Vertex>, v: Vertex, i: nat)
    requires i < |vs|
    ensures Anchor(vs + [v], i) == Anchor(vs, i)
  {
    if !vs[i].kind.VMove? && i > 0 { AnchorOfPrefix(vs, v, i - 1); }
  }

  /** Appending a vertex keeps earlier contours closed, if a move only follows a closed contour. */
  lemma AppendVertex(vs: seq<Vertex>, v: Vertex)
    requires EarlierContoursClosed(vs)
    requires v.kind.VMove? && vs != [] ==> BackAtAnchor(vs, |vs| - 1)
    ensures EarlierContoursClosed(vs + [v])
    ensures !v.kind.VMove? ==>
              Anchor(vs + [v], |vs|) == if vs == [] then (0, 0) else Anchor(vs, |vs| - 1)
  {
    var ws := vs + [v];
    forall i | 0 <= i < |ws| - 1 && ws[i + 1].kind.VMove?
      ensures BackAtAnchor(ws, i)
    {
      AnchorOfPrefix(vs, v, i);
      if i < |vs| - 1 { assert BackAtAnchor(vs, i); }
    }
    if vs != [] { AnchorOfPrefix(vs, v, |vs| - 1); }
  }

  lemma ClosePathCloses(p: Path)
    requires Consistent(p)
    ensures AllContoursClosed(ClosePath(p).out)
  {
    if p.firstX != p.x || p.firstY != p.y {
      AppendVertex(p.out, Point(VLine, p.firstX, p.firstY));
    }
  }

  lemma MoveByConsistent(p: Path, dx: real, dy: real)
    requires Consistent(p)
    ensures Consistent(MoveBy(p, dx, dy))
  {
    ClosePathCloses(p);
    AppendVertex(ClosePath(p).out, Point(VMove, p.x + dx, p.y + dy));
  }

  lemma {:induction false} DrawConsistent(p: Path, segments: seq<Segment>)
    requires Consistent(p)
    ensures Consistent(Draw(p, segments))
  {
    if segments != [] {
      var front := Draw(p, segments[..|segments| - 1]);
      DrawConsistent(p, segments[..|segments| - 1]);
      var after := DrawOne(front, segments[|segments| - 1]);
      AppendVertex(front.out, after.out[|front.out|]);
    }
  }

  lemma StepConsistent(font: Font, b: Buf, st: State)
    requires b.cursor < |b.data| && Consistent(st.path)
    ensures var a := Step(font, b, st);
            if a.EndChar? then AllContoursClosed(a.path.out) else Consistent(ActionPath(a))
  {
    hide IndexItem, Number, IndexCount, Skip, PathSegments, FlexSegments, Consistent,
         AllContoursClosed, MoveBy, ClosePath, Draw;
    ClosePathCloses(st.path);
    forall dx, dy ensures Consistent(MoveBy(st.path, dx, dy)) { MoveByConsistent(st.path, dx, dy); }
    forall segments ensures Consistent(Draw(st.path, segments)) { DrawConsistent(st.path, segments); }
  }

  /** Whatever the font contains, a glyph that the interpreter accepts consists of closed contours. */
  lemma {:induction false} ContoursClose(font: Font, b: Buf, depth: nat, st: State)
    requires depth <= CALL_LIMIT && Consistent(st.path)
    ensures var o := Exec(font, b, depth, st);
            if o.Finished? then AllContoursClosed(o.path.out) else Consistent(o.PathOf())
    decreases CALL_LIMIT - depth, Remaining(b)
  {
    hide Step, Consistent, AllContoursClosed;
    if b.cursor < |b.data| {
      StepConsistent(font, b, st);
      match Step(font, b, st)
      case Next(st', rest) => ContoursClose(font, rest, depth, st');
      case Call(st', rest, callee) =>
        if depth < CALL_LIMIT {
          ContoursClose(font, callee, depth + 1, st');
          var r := Exec(font, callee, depth + 1, st');
          if r.Returned? { ContoursClose(font, rest, depth, r.st); }
        }
      case Return(_) =>
      case EndChar(_) =>
      case Error(_) =>
    }
  }

  lemma GlyphContoursClose(font: Font, index: int)
    requires Glyph(font, index).Finished?
    ensures AllContoursClosed(Glyph(font, index).path.out)
  {
    assert Consistent(EMPTY_PATH);
    ContoursClose(font, IndexItem(font.charstrings, index), 0, INITIAL);
  }
}
