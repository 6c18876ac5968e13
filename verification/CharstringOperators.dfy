/** The operator loops of `stbtt__run_charstring`, each proved to draw what its operator denotes. */
module CharstringOperators {
  import opened MachineInts
  import opened Charstring
  import opened CharstringContext
  import opened Wrappers

  /** The first `sp` entries of the operand array are `ops`, and the context can take the segments. */
  ghost predicate Ready(c: Context, s: array<real>, sp: nat, ops: Operands, segments: Option<seq<Segment>>)
    reads c, c.pvertices, s
  {
    && c.Valid()
    && s.Length == STACK_LIMIT && sp <= STACK_LIMIT && s[..sp] == ops
    && (segments.Some? ==> c.Fits(|c.path.out| + |segments.value|))
  }

  ghost predicate Drew(c: Context, before: Path, ok: bool, segments: Option<seq<Segment>>)
    reads c, c.pvertices
  {
    && c.Valid()
    && ok == segments.Some?
    && c.path == if ok then Draw(before, segments.value) else before
  }

  /** The first `k` of the segments are drawn and the rest still fits. */
  ghost predicate Drawing(c: Context, before: Path, segments: seq<Segment>, k: int)
    reads c, c.pvertices
  {
    && c.Valid()
    && 0 <= k <= |segments|
    && c.path == Draw(before, segments[..k])
    && c.Fits(|before.out| + |segments|)
  }

  lemma DrawNext(before: Path, segments: seq<Segment>, k: nat)
    requires k < |segments|
    ensures Draw(before, segments[..k + 1]) == DrawOne(Draw(before, segments[..k]), segments[k])
  {
    assert segments[..k + 1][..k] == segments[..k];
  }

  method LineSegment(c: Context, dx: real, dy: real, ghost before: Path, ghost segments: seq<Segment>, ghost k: nat)
    requires Drawing(c, before, segments, k) && k < |segments| && segments[k] == Line(dx, dy)
    modifies c, c.pvertices
    ensures Drawing(c, before, segments, k + 1)
  {
    hide DrawOne;
    DrawNext(before, segments, k);
    c.LineTo(dx, dy);
  }

  method CurveSegment(c: Context, dx1: real, dy1: real, dx2: real, dy2: real, dx3: real, dy3: real,
                      ghost before: Path, ghost segments: seq<Segment>, ghost k: nat)
    requires Drawing(c, before, segments, k) && k < |segments|
    requires segments[k] == Curve(dx1, dy1, dx2, dy2, dx3, dy3)
    modifies c, c.pvertices
    ensures Drawing(c, before, segments, k + 1)
  {
    hide DrawOne;
    DrawNext(before, segments, k);
    c.CurveTo(dx1, dy1, dx2, dy2, dx3, dy3);
  }

  /** Lines from operand `i` on while a whole pair lies below `end`. */
  method DrawLines(c: Context, s: array<real>, sp: nat, end: nat, ghost ops: Operands,
                   ghost before: Path, ghost segments: seq<Segment>)
    returns (i: nat)
    requires s.Length == STACK_LIMIT && end <= sp <= STACK_LIMIT && s[..sp] == ops
    requires Drawing(c, before, segments, 0)
    requires Lines(ops, end / 2) <= segments
    modifies c, c.pvertices
    ensures i == 2 * (end / 2) && Drawing(c, before, segments, end / 2)
  {
    hide Draw, Context.Valid;
    i := 0;
    while i + 1 < end
      invariant i % 2 == 0 && i <= end
      invariant Drawing(c, before, segments, i / 2)
      invariant s[..sp] == ops
    {
      assert segments[i / 2] == Lines(ops, end / 2)[i / 2] == Line(ops[i], ops[i + 1]);
      LineSegment(c, s[i], s[i + 1], before, segments, i / 2);
      i := i + 2;
    }
  }

  /** Curves from operand 0 on while six operands lie below `end`. */
  method DrawCurves(c: Context, s: array<real>, sp: nat, end: nat, ghost ops: Operands,
                    ghost before: Path, ghost segments: seq<Segment>)
    returns (i: nat)
    requires s.Length == STACK_LIMIT && end <= sp <= STACK_LIMIT && s[..sp] == ops
    requires Drawing(c, before, segments, 0)
    requires Curves(ops, end / 6) <= segments
    modifies c, c.pvertices
    ensures i == 6 * (end / 6) && Drawing(c, before, segments, end / 6)
  {
    hide Draw, Context.Valid;
    i := 0;
    while i + 5 < end
      invariant i % 6 == 0 && i <= end
      invariant Drawing(c, before, segments, i / 6)
      invariant s[..sp] == ops
    {
      assert segments[i / 6] == Curves(ops, end / 6)[i / 6] == CurveAt(ops, i);
      CurveSegment(c, s[i], s[i + 1], s[i + 2], s[i + 3], s[i + 4], s[i + 5], before, segments, i / 6);
      i := i + 6;
    }
  }

  lemma DrawNothing(p: Path)
    ensures Draw(p, []) == p
  {
  }

  method RLineTo(c: Context, s: array<real>, sp: nat, ghost ops: Operands) returns (ok: bool)
    requires Ready(c, s, sp, ops, PathSegments(0x05, ops))
    modifies c, c.pvertices
    ensures Drew(c, old(c.path), ok, PathSegments(0x05, ops))
  {
    hide Draw, Context.Valid;
    DrawNothing(c.path);
    if sp < 2 { return false; }
    ghost var segments := Lines(ops, sp / 2);
    assert segments[..0] == [] && segments[..sp / 2] == segments;
    var i := DrawLines(c, s, sp, sp, ops, c.path, segments);
    return true;
  }

  method RRCurveTo(c: Context, s: array<real>, sp: nat, ghost ops: Operands) returns (ok: bool)
    requires Ready(c, s, sp, ops, PathSegments(0x08, ops))
    modifies c, c.pvertices
    ensures Drew(c, old(c.path), ok, PathSegments(0x08, ops))
  {
    hide Draw, Context.Valid;
    DrawNothing(c.path);
    if sp < 6 { return false; }
    ghost var segments := Curves(ops, sp / 6);
    assert segments[..0] == [] && segments[..sp / 6] == segments;
    var i := DrawCurves(c, s, sp, sp, ops, c.path, segments);
    return true;
  }

  method RCurveLine(c: Context, s: array<real>, sp: nat, ghost ops: Operands) returns (ok: bool)
    requires Ready(c, s, sp, ops, PathSegments(0x18, ops))
    modifies c, c.pvertices
    ensures Drew(c, old(c.path), ok, PathSegments(0x18, ops))
  {
    hide Draw, Context.Valid;
    DrawNothing(c.path);
    if sp < 8 { return false; }
    ghost var before, n, segments := c.path, (sp - 2) / 6, PathSegments(0x18, ops).value;
    assert segments[..0] == [] && segments[..n + 1] == segments && Curves(ops, n) <= segments;
    var i := DrawCurves(c, s, sp, sp - 2, ops, before, segments);
    if i + 1 >= sp { return false; }
    LineSegment(c, s[i], s[i + 1], before, segments, n);
    return true;
  }

  method RLineCurve(c: Context, s: array<real>, sp: nat, ghost ops: Operands) returns (ok: bool)
    requires Ready(c, s, sp, ops, PathSegments(0x19, ops))
    modifies c, c.pvertices
    ensures Drew(c, old(c.path), ok, PathSegments(0x19, ops))
  {
    hide Draw, Context.Valid;
    DrawNothing(c.path);
    if sp < 8 { return false; }
    ghost var before, n, segments := c.path, (sp - 6) / 2, PathSegments(0x19, ops).value;
    assert segments[..0] == [] && segments[..n + 1] == segments && Lines(ops, n) <= segments;
    var i := DrawLines(c, s, sp, sp - 6, ops, before, segments);
    if i + 5 >= sp { return false; }
    CurveSegment(c, s[i], s[i + 1], s[i + 2], s[i + 3], s[i + 4], s[i + 5], before, segments, n);
    return true;
  }

  /** `hlineto` and `vlineto`: one loop, entered at either half. */
  method AlternatingLineTo(c: Context, s: array<real>, sp: nat, horizontalFirst: bool, ghost ops: Operands)
    returns (ok: bool)
    requires Ready(c, s, sp, ops, PathSegments(if horizontalFirst then 0x06 else 0x07, ops))
    modifies c, c.pvertices
    ensures Drew(c, old(c.path), ok, PathSegments(if horizontalFirst then 0x06 else 0x07, ops))
  {
    hide Draw, Context.Valid;
    DrawNothing(c.path);
    if sp < 1 { return false; }
    ghost var before, segments := c.path, AlternatingLines(ops, horizontalFirst);
    assert segments[..0] == [] && segments[..sp] == segments;
    var i, horizontal := 0, horizontalFirst;
    while i < sp
      invariant 0 <= i <= sp
      invariant horizontal == ((i % 2 == 0) == horizontalFirst)
      invariant Drawing(c, before, segments, i)
      invariant s[..sp] == ops
    {
      if horizontal {
        LineSegment(c, s[i], 0.0, before, segments, i);
      } else {
        LineSegment(c, 0.0, s[i], before, segments, i);
      }
      i, horizontal := i + 1, !horizontal;
    }
    return true;
  }

  /** `hvcurveto` and `vhcurveto`: one loop, entered at either half. */
  method AlternatingCurveTo(c: Context, s: array<real>, sp: nat, horizontalFirst: bool, ghost ops: Operands)
    returns (ok: bool)
    requires Ready(c, s, sp, ops, PathSegments(if horizontalFirst then 0x1F else 0x1E, ops))
    modifies c, c.pvertices
    ensures Drew(c, old(c.path), ok, PathSegments(if horizontalFirst then 0x1F else 0x1E, ops))
  {
    hide Draw, Context.Valid;
    DrawNothing(c.path);
    if sp < 4 { return false; }
    ghost var before, segments := c.path, AlternatingCurves(ops, horizontalFirst);
    assert segments[..0] == [] && segments[..sp / 4] == segments;
    hide PathSegments, AlternatingCurves, AlternatingCurve;
    var i, horizontal := 0, horizontalFirst;
    ghost var k := 0;
    while i + 3 < sp
      invariant 0 <= k <= |segments| && i == 4 * k
      invariant horizontal == ((k % 2 == 0) == horizontalFirst)
      invariant Drawing(c, before, segments, k)
      invariant s[..sp] == ops
    {
      AlternatingCurveStep(c, s, sp, i, horizontal, horizontalFirst, ops, before, k);
      i, horizontal, k := i + 4, !horizontal, k + 1;
    }
    return true;
  }

  method AlternatingCurveStep(c: Context, s: array<real>, sp: nat, i: nat, horizontal: bool,
                              ghost horizontalFirst: bool, ghost ops: Operands, ghost before: Path, ghost k: nat)
    requires s.Length == STACK_LIMIT && sp <= STACK_LIMIT && s[..sp] == ops && i == 4 * k && i + 3 < sp
    requires horizontal == ((k % 2 == 0) == horizontalFirst)
    requires Drawing(c, before, AlternatingCurves(ops, horizontalFirst), k)
    modifies c, c.pvertices
    ensures Drawing(c, before, AlternatingCurves(ops, horizontalFirst), k + 1)
  {
    hide Draw, Context.Valid, AlternatingCurves, AlternatingCurve, Drawing;
    AlternatingCurvesAt(ops, horizontalFirst, k);
    ghost var segments := AlternatingCurves(ops, horizontalFirst);
    var extra := if sp - i == 5 then s[i + 4] else 0.0;
    if horizontal {
      CurveSegment(c, s[i], 0.0, s[i + 1], s[i + 2], extra, s[i + 3], before, segments, k);
    } else {
      CurveSegment(c, 0.0, s[i], s[i + 1], s[i + 2], s[i + 3], extra, before, segments, k);
    }
  }

  lemma AlternatingCurvesAt(s: seq<real>, horizontalFirst: bool, k: nat)
    requires k < |s| / 4
    ensures var i := 4 * k;
            var extra := if |s| - i == 5 then s[i + 4] else 0.0;
            AlternatingCurves(s, horizontalFirst)[k] ==
            if (k % 2 == 0) == horizontalFirst then Curve(s[i], 0.0, s[i + 1], s[i + 2], extra, s[i + 3])
            else Curve(0.0, s[i], s[i + 1], s[i + 2], s[i + 3], extra)
  {
  }

  /** `vvcurveto` and `hhcurveto`. */
  method ParallelCurveTo(c: Context, s: array<real>, sp: nat, horizontal: bool, ghost ops: Operands)
    returns (ok: bool)
    requires Ready(c, s, sp, ops, PathSegments(if horizontal then 0x1B else 0x1A, ops))
    modifies c, c.pvertices
    ensures Drew(c, old(c.path), ok, PathSegments(if horizontal then 0x1B else 0x1A, ops))
  {
    hide Draw, Context.Valid;
    DrawNothing(c.path);
    if sp < 4 { return false; }
    ghost var before, segments := c.path, ParallelCurves(ops, horizontal);
    assert segments[..0] == [] && segments[..|segments|] == segments;
    hide PathSegments, ParallelCurves, ParallelCurve;
    var i, f := 0, 0.0;
    if sp % 2 == 1 { f := s[i]; i := i + 1; }
    ghost var k := 0;
    while i + 3 < sp
      invariant 0 <= k <= |segments| && i == sp % 2 + 4 * k
      invariant f == if k == 0 && sp % 2 == 1 then ops[0] else 0.0
      invariant Drawing(c, before, segments, k)
      invariant s[..sp] == ops
    {
      ParallelCurvesAt(ops, horizontal, k);
      if horizontal {
        CurveSegment(c, s[i], f, s[i + 1], s[i + 2], s[i + 3], 0.0, before, segments, k);
      } else {
        CurveSegment(c, f, s[i], s[i + 1], s[i + 2], 0.0, s[i + 3], before, segments, k);
      }
      f := 0.0;
      i, k := i + 4, k + 1;
    }
    return true;
  }

  lemma ParallelCurvesAt(s: seq<real>, horizontal: bool, k: nat)
    requires |s| % 2 + 4 * k + 4 <= |s|
    ensures var i := |s| % 2 + 4 * k;
            var across := if k == 0 && |s| % 2 == 1 then s[0] else 0.0;
            k < |ParallelCurves(s, horizontal)| && ParallelCurves(s, horizontal)[k] ==
            if horizontal then Curve(s[i], across, s[i + 1], s[i + 2], s[i + 3], 0.0)
            else Curve(across, s[i], s[i + 1], s[i + 2], 0.0, s[i + 3])
  {
  }

  method PathOperator(op: byte, c: Context, s: array<real>, sp: nat, ghost ops: Operands) returns (ok: bool)
    requires IsPathOp(op) && Ready(c, s, sp, ops, PathSegments(op, ops))
    modifies c, c.pvertices
    ensures Drew(c, old(c.path), ok, PathSegments(op, ops))
  {
    hide Draw, Context.Valid, PathSegments;
    if op == 0x05 { ok := RLineTo(c, s, sp, ops); }
    else if op == 0x06 || op == 0x07 { ok := AlternatingLineTo(c, s, sp, op == 0x06, ops); }
    else if op == 0x1F || op == 0x1E { ok := AlternatingCurveTo(c, s, sp, op == 0x1F, ops); }
    else if op == 0x08 { ok := RRCurveTo(c, s, sp, ops); }
    else if op == 0x18 { ok := RCurveLine(c, s, sp, ops); }
    else if op == 0x19 { ok := RLineCurve(c, s, sp, ops); }
    else { ok := ParallelCurveTo(c, s, sp, op == 0x1B, ops); }
  }

  /** The two-byte flex operators. */
  method FlexOperator(op: byte, c: Context, s: array<real>, sp: nat, ghost ops: Operands) returns (ok: bool)
    requires Ready(c, s, sp, ops, FlexSegments(op, ops))
    modifies c, c.pvertices
    ensures Drew(c, old(c.path), ok, FlexSegments(op, ops))
  {
    hide Draw, Context.Valid;
    DrawNothing(c.path);
    ghost var before := c.path;
    var dx1, dy1, dx2, dy2, dx3, dy3, dx4, dy4, dx5, dy5, dx6, dy6 :=
      0.0, 0.0, 0.0, 0.0, 0.0, 0.0, 0.0, 0.0, 0.0, 0.0, 0.0, 0.0;
    if op == 0x22 {
      if sp < 7 { return false; }
      dx1, dx2, dy2, dx3, dx4, dx5, dx6 := s[0], s[1], s[2], s[3], s[4], s[5], s[6];
      dy5 := -dy2;
    } else if op == 0x23 {
      if sp < 13 { return false; }
      dx1, dy1, dx2, dy2, dx3, dy3 := s[0], s[1], s[2], s[3], s[4], s[5];
      dx4, dy4, dx5, dy5, dx6, dy6 := s[6], s[7], s[8], s[9], s[10], s[11];
    } else if op == 0x24 {
      if sp < 9 { return false; }
      dx1, dy1, dx2, dy2, dx3 := s[0], s[1], s[2], s[3], s[4];
      dx4, dx5, dy5, dx6 := s[5], s[6], s[7], s[8];
      dy6 := -(dy1 + dy2 + dy5);
    } else if op == 0x25 {
      if sp < 11 { return false; }
      dx1, dy1, dx2, dy2, dx3, dy3 := s[0], s[1], s[2], s[3], s[4], s[5];
      dx4, dy4, dx5, dy5 := s[6], s[7], s[8], s[9];
      dx6, dy6 := s[10], s[10];
      var dx := dx1 + dx2 + dx3 + dx4 + dx5;
      var dy := dy1 + dy2 + dy3 + dy4 + dy5;
      if Abs(dx) > Abs(dy) { dy6 := -dy; } else { dx6 := -dx; }
    } else {
      return false;
    }
    ghost var segments := FlexSegments(op, ops).value;
    assert |segments| == 2 && segments[..0] == [] && segments[..2] == segments;
    CurveSegment(c, dx1, dy1, dx2, dy2, dx3, dy3, before, segments, 0);
    CurveSegment(c, dx4, dy4, dx5, dy5, dx6, dy6, before, segments, 1);
    return true;
  }
}
