/** The drawing context `stbtt__csctx`: one code path either measures a glyph or stores its vertices. */
module CharstringContext {
  import opened MachineInts
  import opened GlyphOutline
  import opened Charstring

  // ---------- Boxes ----------

  /** The coordinate pairs a vertex contributes to the bounds: its point and, for a cubic, both controls. */
  function PointsOf(v: Vertex): (s: seq<(int, int)>)
    ensures s != []
  {
    if v.kind.VCubic? then [(v.x, v.y), (v.cx, v.cy), (v.cx1, v.cy1)] else [(v.x, v.y)]
  }

  function PointsOfAll(vs: seq<Vertex>): seq<(int, int)> {
    if vs == [] then [] else PointsOfAll(vs[..|vs| - 1]) + PointsOf(vs[|vs| - 1])
  }

  datatype Box = Box(minX: int, minY: int, maxX: int, maxY: int)

  predicate Inside(q: (int, int), box: Box) {
    box.minX <= q.0 <= box.maxX && box.minY <= q.1 <= box.maxY
  }

  /** `box` is the exact extent of the points: it contains them and every side is attained. */
  ghost predicate Spans(box: Box, points: seq<(int, int)>) {
    if points == [] then box == Box.Box(0, 0, 0, 0)
    else
      && (forall q | q in points :: Inside(q, box))
      && (exists q | q in points :: q.0 == box.minX)
      && (exists q | q in points :: q.0 == box.maxX)
      && (exists q | q in points :: q.1 == box.minY)
      && (exists q | q in points :: q.1 == box.maxY)
  }

  function Extend(box: Box, started: bool, x: int, y: int): Box {
    Box.Box(if x < box.minX || !started then x else box.minX,
            if y < box.minY || !started then y else box.minY,
            if x > box.maxX || !started then x else box.maxX,
            if y > box.maxY || !started then y else box.maxY)
  }

  lemma ExtendSpans(box: Box, points: seq<(int, int)>, x: int, y: int)
    requires Spans(box, points)
    ensures Spans(Extend(box, points != [], x, y), points + [(x, y)])
  {
    var all := points + [(x, y)];
    assert (x, y) in all;
    assert forall q | q in points :: q in all;
    var e := Extend(box, points != [], x, y);
    if points != [] {
      var q0 :| q0 in points && q0.0 == box.minX;
      var q1 :| q1 in points && q1.0 == box.maxX;
      var q2 :| q2 in points && q2.1 == box.minY;
      var q3 :| q3 in points && q3.1 == box.maxY;
      assert q0 in all && q1 in all && q2 in all && q3 in all;
    }
  }

  // ---------- The context ----------

  class Context {
    const bounds: bool
    const pvertices: array?<Vertex>
    var started: bool
    var firstX: real
    var firstY: real
    var x: real
    var y: real
    var box: Box
    var numVertices: nat
    /** The path drawn so far, of which the fields keep the part they need. */
    ghost var path: Path

    ghost predicate Valid()
      reads this, pvertices
    {
      && Pen() == path.(out := [])
      && numVertices == |path.out|
      && if bounds then pvertices == null && Measures() else Stores()
    }

    ghost function Pen(): Path
      reads this
    {
      Path.Path(x, y, firstX, firstY, [])
    }

    ghost predicate Measures()
      reads this
    {
      started == (PointsOfAll(path.out) != []) && Spans(box, PointsOfAll(path.out))
    }

    ghost predicate Stores()
      reads this, pvertices
    {
      && pvertices != null
      && numVertices <= pvertices.Length
      && forall i | 0 <= i < numVertices && i < |path.out| :: pvertices[i] == Stored(path.out[i])
    }

    /** Whether the output array, if there is one, has space for `n` vertices in all. */
    ghost predicate Fits(n: nat)
    {
      !bounds ==> pvertices != null && n <= pvertices.Length
    }

    constructor (bounds: bool, pvertices: array?<Vertex>)
      requires bounds <==> pvertices == null
      ensures Valid() && path == EMPTY_PATH
      ensures this.bounds == bounds && this.pvertices == pvertices
    {
      this.bounds := bounds;
      this.pvertices := pvertices;
      started := false;
      firstX, firstY, x, y := 0.0, 0.0, 0.0, 0.0;
      box := Box.Box(0, 0, 0, 0);
      numVertices := 0;
      path := EMPTY_PATH;
    }

    method TrackVertex(x: int, y: int, ghost points: seq<(int, int)>)
      requires started == (points != []) && Spans(box, points)
      modifies this`started, this`box
      ensures started && Spans(box, points + [(x, y)])
    {
      ExtendSpans(box, points, x, y);
      if x > box.maxX || !started { box := box.(maxX := x); }
      if y > box.maxY || !started { box := box.(maxY := y); }
      if x < box.minX || !started { box := box.(minX := x); }
      if y < box.minY || !started { box := box.(minY := y); }
      started := true;
    }

    method TrackPoints(v: Vertex, ghost before: seq<(int, int)>)
      requires started == (before != []) && Spans(box, before)
      modifies this`started, this`box
      ensures started && Spans(box, before + PointsOf(v))
    {
      hide Spans;
      TrackVertex(v.x, v.y, before);
      if v.kind.VCubic? {
        TrackVertex(v.cx, v.cy, before + [(v.x, v.y)]);
        TrackVertex(v.cx1, v.cy1, before + [(v.x, v.y)] + [(v.cx, v.cy)]);
        assert before + [(v.x, v.y)] + [(v.cx, v.cy)] + [(v.cx1, v.cy1)] == before + PointsOf(v);
      }
    }

    /** `stbtt__csctx_v`: appends one vertex, within the array. */
    method AddVertex(v: Vertex)
      requires Valid() && Fits(numVertices + 1)
      modifies this`started, this`box, this`numVertices, this`path, pvertices
      ensures Valid() && path == old(path).(out := old(path.out) + [v])
    {
      hide Spans, Stored, PointsOf;
      ghost var before := path.out;
      if bounds {
        TrackPoints(v, PointsOfAll(before));
      } else {
        pvertices[numVertices] := Stored(v);
      }
      numVertices := numVertices + 1;
      path := path.(out := before + [v]);
      assert path.out[..|before|] == before;
    }

    method CloseShape()
      requires Valid() && Fits(|ClosePath(path).out|)
      modifies this, pvertices
      ensures Valid() && path == ClosePath(old(path))
    {
      if firstX != x || firstY != y {
        AddVertex(Point(VLine, firstX, firstY));
      }
    }

    method MoveTo(dx: real, dy: real)
      requires Valid() && Fits(|MoveBy(path, dx, dy).out|)
      modifies this, pvertices
      ensures Valid() && path == MoveBy(old(path), dx, dy)
    {
      hide Spans, PointsOfAll, Stored, Trunc;
      CloseShape();
      x := x + dx;
      firstX := x;
      y := y + dy;
      firstY := y;
      path := path.(x := x, y := y, firstX := x, firstY := y);
      AddVertex(Point(VMove, x, y));
    }

    method LineTo(dx: real, dy: real)
      requires Valid() && Fits(numVertices + 1)
      modifies this, pvertices
      ensures Valid() && path == DrawOne(old(path), Line(dx, dy))
    {
      hide Spans, PointsOfAll, Stored, Trunc;
      x := x + dx;
      y := y + dy;
      path := path.(x := x, y := y);
      AddVertex(Point(VLine, x, y));
    }

    method CurveTo(dx1: real, dy1: real, dx2: real, dy2: real, dx3: real, dy3: real)
      requires Valid() && Fits(numVertices + 1)
      modifies this, pvertices
      ensures Valid() && path == DrawOne(old(path), Curve(dx1, dy1, dx2, dy2, dx3, dy3))
    {
      hide Spans, PointsOfAll, Stored, Trunc;
      var x1 := x + dx1;
      var y1 := y + dy1;
      var x2 := x1 + dx2;
      var y2 := y1 + dy2;
      x := x2 + dx3;
      y := y2 + dy3;
      path := path.(x := x, y := y);
      AddVertex(Vertex(VCubic, Trunc(x), Trunc(y), Trunc(x1), Trunc(y1), Trunc(x2), Trunc(y2)));
    }
  }

  // ---------- What a box means for the vertices ----------

  lemma {:induction false} PointsOfVertex(vs: seq<Vertex>, i: nat)
    requires i < |vs|
    ensures (vs[i].x, vs[i].y) in PointsOfAll(vs)
    ensures vs[i].kind.VCubic? ==> (vs[i].cx, vs[i].cy) in PointsOfAll(vs) && (vs[i].cx1, vs[i].cy1) in PointsOfAll(vs)
  {
    if i < |vs| - 1 {
      PointsOfVertex(vs[..|vs| - 1], i);
    } else {
      InLast(PointsOfAll(vs[..|vs| - 1]), vs[i]);
    }
  }

  lemma InLast(front: seq<(int, int)>, v: Vertex)
    ensures (v.x, v.y) in front + PointsOf(v)
    ensures v.kind.VCubic? ==> (v.cx, v.cy) in front + PointsOf(v) && (v.cx1, v.cy1) in front + PointsOf(v)
  {
    assert PointsOf(v)[0] == (v.x, v.y);
    if v.kind.VCubic? { assert PointsOf(v)[1] == (v.cx, v.cy) && PointsOf(v)[2] == (v.cx1, v.cy1); }
  }

  lemma {:induction false} VertexOfPoint(vs: seq<Vertex>, q: (int, int)) returns (i: nat)
    requires q in PointsOfAll(vs)
    ensures i < |vs|
    ensures q == (vs[i].x, vs[i].y)
         || (vs[i].kind.VCubic? && (q == (vs[i].cx, vs[i].cy) || q == (vs[i].cx1, vs[i].cy1)))
  {
    if q in PointsOfAll(vs[..|vs| - 1]) { i := VertexOfPoint(vs[..|vs| - 1], q); } else { i := |vs| - 1; }
  }

  /** No point of a vertex and no control point of a cubic is outside of the box. */
  lemma BoxHoldsVertices(box: Box, vs: seq<Vertex>, i: nat)
    requires Spans(box, PointsOfAll(vs)) && i < |vs|
    ensures box.minX <= vs[i].x <= box.maxX && box.minY <= vs[i].y <= box.maxY
    ensures vs[i].kind.VCubic? ==> box.minX <= vs[i].cx <= box.maxX && box.minY <= vs[i].cy <= box.maxY
    ensures vs[i].kind.VCubic? ==> box.minX <= vs[i].cx1 <= box.maxX && box.minY <= vs[i].cy1 <= box.maxY
  {
    PointsOfVertex(vs, i);
    hide PointsOfAll;
    assert Inside((vs[i].x, vs[i].y), box);
    if vs[i].kind.VCubic? { assert Inside((vs[i].cx, vs[i].cy), box) && Inside((vs[i].cx1, vs[i].cy1), box); }
  }

  /** And each side of the box goes through one of these. */
  lemma BoxIsTight(box: Box, vs: seq<Vertex>) returns (l: nat, r: nat, b: nat, t: nat)
    requires Spans(box, PointsOfAll(vs)) && vs != []
    ensures l < |vs| && r < |vs| && b < |vs| && t < |vs|
    ensures box.minX == vs[l].x || (vs[l].kind.VCubic? && (box.minX == vs[l].cx || box.minX == vs[l].cx1))
    ensures box.maxX == vs[r].x || (vs[r].kind.VCubic? && (box.maxX == vs[r].cx || box.maxX == vs[r].cx1))
    ensures box.minY == vs[b].y || (vs[b].kind.VCubic? && (box.minY == vs[b].cy || box.minY == vs[b].cy1))
    ensures box.maxY == vs[t].y || (vs[t].kind.VCubic? && (box.maxY == vs[t].cy || box.maxY == vs[t].cy1))
  {
    PointsOfVertex(vs, 0);
    hide PointsOfAll;
    var points := PointsOfAll(vs);
    var q0 :| q0 in points && q0.0 == box.minX;
    var q1 :| q1 in points && q1.0 == box.maxX;
    var q2 :| q2 in points && q2.1 == box.minY;
    var q3 :| q3 in points && q3.1 == box.maxY;
    l := VertexOfPoint(vs, q0);
    r := VertexOfPoint(vs, q1);
    b := VertexOfPoint(vs, q2);
    t := VertexOfPoint(vs, q3);
  }

  // ---------- The box of the stored vertices ----------

  predicate FitsInt16(box: Box) {
    -0x8000 <= box.minX && box.maxX < 0x8000 && -0x8000 <= box.minY && box.maxY < 0x8000
  }

  function StoredPoint(q: (int, int)): (int, int) { (ToInt16(q.0), ToInt16(q.1)) }

  lemma {:induction false} PointsOfStored(vs: seq<Vertex>)
    ensures |PointsOfAll(StoredAll(vs))| == |PointsOfAll(vs)|
    ensures forall i | 0 <= i < |PointsOfAll(vs)| ::
              PointsOfAll(StoredAll(vs))[i] == StoredPoint(PointsOfAll(vs)[i])
  {
    if vs != [] {
      var front := vs[..|vs| - 1];
      PointsOfStored(front);
      assert StoredAll(vs)[..|vs| - 1] == StoredAll(front);
    }
  }

  lemma PointsFitIffBoxFits(box: Box, points: seq<(int, int)>)
    requires Spans(box, points) && points != []
    ensures FitsInt16(box) <==> forall q | q in points :: StoredPoint(q) == q
  {
    if FitsInt16(box) {
      forall q | q in points ensures StoredPoint(q) == q { assert Inside(q, box); }
    }
    if forall q | q in points :: StoredPoint(q) == q {
      var q0 :| q0 in points && q0.0 == box.minX;
      var q1 :| q1 in points && q1.0 == box.maxX;
      var q2 :| q2 in points && q2.1 == box.minY;
      var q3 :| q3 in points && q3.1 == box.maxY;
      assert StoredPoint(q0) == q0 && StoredPoint(q1) == q1 && StoredPoint(q2) == q2 && StoredPoint(q3) == q3;
    }
  }

  /** The measured box is the extent of the vertices that the output run stores exactly when it fits
      the 16-bit coordinates of the array: measuring uses the coordinates before truncation. */
  lemma BoxOfStoredVertices(box: Box, vs: seq<Vertex>)
    requires Spans(box, PointsOfAll(vs))
    ensures Spans(box, PointsOfAll(StoredAll(vs))) <==> FitsInt16(box)
  {
    var points, stored := PointsOfAll(vs), PointsOfAll(StoredAll(vs));
    PointsOfStored(vs);
    if points != [] {
      PointsFitIffBoxFits(box, points);
      if FitsInt16(box) {
        assert forall i | 0 <= i < |points| :: points[i] in points;
        assert stored == points;
      } else if Spans(box, stored) {
        StoredBoxFits(box, stored);
      }
    }
  }

  lemma StoredBoxFits(box: Box, stored: seq<(int, int)>)
    requires stored != [] && Spans(box, stored)
    requires forall q | q in stored :: -0x8000 <= q.0 < 0x8000 && -0x8000 <= q.1 < 0x8000
    ensures FitsInt16(box)
  {
    var q0 :| q0 in stored && q0.0 == box.minX;
    var q1 :| q1 in stored && q1.0 == box.maxX;
    var q2 :| q2 in stored && q2.1 == box.minY;
    var q3 :| q3 in stored && q3.1 == box.maxY;
  }
}
