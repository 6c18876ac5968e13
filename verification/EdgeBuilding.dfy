/** The rasterizer's first half: closed polylines become edges that point downwards and remember which way
    they were drawn. */
module EdgeBuilding {
  import opened CurveFlattening
  import opened CurveTessellation
  import opened EdgeSort
  import opened EdgeSweep
  import opened GlyphOutline
  import opened RasterHeap

  /** Scaling and shifting; `invert` turns the y axis over. */
  datatype Transform = Transform(scaleX: real, scaleY: real, shiftX: real, shiftY: real, invert: bool)
  {
    function X(p: Pt): real { p.x * scaleX + shiftX }

    function Y(p: Pt): real { p.y * (if invert then -scaleY else scaleY) + shiftY }

    /** The smaller scale. */
    function Scale(): real { if scaleX > scaleY then scaleY else scaleX }

    /** Whether a line is drawn downwards on the bitmap. */
    predicate Falls(p: Pt, q: Pt) { if invert then p.y > q.y else p.y < q.y }
  }

  /** The edge for the line from p to q; a horizontal line has none. */
  function LineEdge(t: Transform, p: Pt, q: Pt): seq<Edge> {
    if p.y == q.y then []
    else if t.Falls(p, q) then [Edge(t.X(p), t.Y(p), t.X(q), t.Y(q), true)]
    else [Edge(t.X(q), t.Y(q), t.X(p), t.Y(p), false)]
  }

  /** The point before point k of a closed contour. */
  function Before(c: seq<Pt>, k: nat): Pt
    requires k < |c|
  {
    if k == 0 then c[|c| - 1] else c[k - 1]
  }

  /** The edges of the lines that end at the first k points. */
  function ContourEdges(t: Transform, c: seq<Pt>, k: nat): (r: seq<Edge>)
    requires k <= |c|
    ensures |r| <= k
  {
    if k == 0 then [] else ContourEdges(t, c, k - 1) + LineEdge(t, Before(c, k - 1), c[k - 1])
  }

  /** The edges of the contours whose lengths are given, one after another in `points`. */
  function AllEdges(t: Transform, points: seq<Pt>, lengths: seq<nat>): (r: seq<Edge>)
    requires Sum(lengths) <= |points|
    ensures |r| <= Sum(lengths)
  {
    if lengths == [] then []
    else
      var front, last := lengths[..|lengths| - 1], lengths[|lengths| - 1];
      var c := points[Sum(front)..Sum(front) + last];
      AllEdges(t, points, front) + ContourEdges(t, c, last)
  }

  // ---------- What the edges are good for ----------

  ghost predicate Downward(edges: seq<Edge>) {
    forall i | 0 <= i < |edges| :: edges[i].y0 <= edges[i].y1
  }

  /** The edges point down the bitmap exactly for scales that are not negative. */
  lemma EdgesPointDown(t: Transform, points: seq<Pt>, lengths: seq<nat>)
    requires Sum(lengths) <= |points|
    ensures Downward(AllEdges(t, points, lengths)) <==> t.scaleY >= 0.0 || AllEdges(t, points, lengths) == []
  {
    AllDirected(t, points, lengths);
    hide AllEdges;
    var edges := AllEdges(t, points, lengths);
    if t.scaleY >= 0.0 {
      forall i | 0 <= i < |edges| ensures edges[i].y0 <= edges[i].y1 {
        assert Directed(t, edges[i]);
      }
    } else if edges != [] {
      assert Directed(t, edges[0]);
    }
  }

  /** Whether an edge points down the bitmap exactly when the scale is not negative. */
  predicate Directed(t: Transform, e: Edge) { e.y0 <= e.y1 <==> t.scaleY >= 0.0 }

  lemma {:induction false} AllDirected(t: Transform, points: seq<Pt>, lengths: seq<nat>)
    requires Sum(lengths) <= |points|
    ensures forall i | 0 <= i < |AllEdges(t, points, lengths)| :: Directed(t, AllEdges(t, points, lengths)[i])
  {
    hide Directed;
    if lengths != [] {
      var front, last := lengths[..|lengths| - 1], lengths[|lengths| - 1];
      AllDirected(t, points, front);
      ContourDirected(t, points[Sum(front)..Sum(front) + last], last);
    }
  }

  lemma {:induction false} ContourDirected(t: Transform, c: seq<Pt>, k: nat)
    requires k <= |c|
    ensures forall i | 0 <= i < |ContourEdges(t, c, k)| :: Directed(t, ContourEdges(t, c, k)[i])
  {
    hide Directed;
    if k > 0 {
      ContourDirected(t, c, k - 1);
      LineDirected(t, Before(c, k - 1), c[k - 1]);
    }
  }

  lemma LineDirected(t: Transform, p: Pt, q: Pt)
    ensures forall i | 0 <= i < |LineEdge(t, p, q)| :: Directed(t, LineEdge(t, p, q)[i])
  {
    var d, s := p.y - q.y, t.scaleY;
    if d > 0.0 { Slopes(d, s); } else { Slopes(-d, s); }
    assert t.Y(p) - t.Y(q) == (if t.invert then -(d * s) else d * s);
  }

  lemma Slopes(d: real, s: real)
    requires d >= 0.0
    ensures s >= 0.0 ==> d * s >= 0.0
    ensures s < 0.0 && d > 0.0 ==> d * s < 0.0
  {
  }

  // ---------- Balance ----------

  /** An edge counts once, with its direction, at every level below its top down to its bottom. */
  function Crossing(e: Edge, h: real): int {
    if e.y0 < h <= e.y1 then if e.invert then 1 else -1 else 0
  }

  function Crossed(edges: seq<Edge>, h: real): int {
    if edges == [] then 0 else Crossed(edges[..|edges| - 1], h) + Crossing(edges[|edges| - 1], h)
  }

  lemma {:induction false} CrossedConcat(a: seq<Edge>, b: seq<Edge>, h: real)
    ensures Crossed(a + b, h) == Crossed(a, h) + Crossed(b, h)
  {
    hide Crossing;
    if b == [] {
      assert a + b == a;
    } else {
      assert (a + b)[..|a + b| - 1] == a + b[..|b| - 1];
      CrossedConcat(a, b[..|b| - 1], h);
    }
  }

  /** 1 for a point above the level. */
  function IsAbove(t: Transform, p: Pt, h: real): int { if t.Y(p) < h then 1 else 0 }

  lemma LineCrossing(t: Transform, p: Pt, q: Pt, h: real)
    requires t.scaleY >= 0.0
    ensures Crossed(LineEdge(t, p, q), h) == IsAbove(t, p, h) - IsAbove(t, q, h)
  {
    LineDirected(t, p, q);
    if p.y != q.y {
      var e := LineEdge(t, p, q)[0];
      assert LineEdge(t, p, q)[..0] == [];
      assert e.y0 <= e.y1;
    }
  }

  lemma {:induction false} ContourCrossed(t: Transform, c: seq<Pt>, k: nat, h: real)
    requires t.scaleY >= 0.0 && k <= |c|
    ensures k > 0 ==> Crossed(ContourEdges(t, c, k), h) == IsAbove(t, c[|c| - 1], h) - IsAbove(t, c[k - 1], h)
    ensures k == 0 ==> Crossed(ContourEdges(t, c, k), h) == 0
  {
    hide IsAbove, LineEdge;
    if k > 0 {
      ContourCrossed(t, c, k - 1, h);
      LineCrossing(t, Before(c, k - 1), c[k - 1], h);
      CrossedConcat(ContourEdges(t, c, k - 1), LineEdge(t, Before(c, k - 1), c[k - 1]), h);
    }
  }

  /** Every level is crossed as often upwards as downwards, because contours are closed. */
  lemma {:induction false} EdgesBalance(t: Transform, points: seq<Pt>, lengths: seq<nat>, h: real)
    requires Sum(lengths) <= |points|
    ensures Crossed(AllEdges(t, points, lengths), h) == 0
  {
    hide Crossed, ContourEdges;
    if t.scaleY < 0.0 {
      UpwardBalances(t, points, lengths, h);
    } else if lengths == [] {
      NoEdges(t, points, h);
    } else {
      var front, last := lengths[..|lengths| - 1], lengths[|lengths| - 1];
      var c := points[Sum(front)..Sum(front) + last];
      EdgesBalance(t, points, front, h);
      ContourBalances(t, c, h);
      assert AllEdges(t, points, lengths) == AllEdges(t, points, front) + ContourEdges(t, c, last);
      hide *;
      CrossedConcat(AllEdges(t, points, front), ContourEdges(t, c, last), h);
    }
  }

  /** With a negative scale no edge crosses any level on its way down. */
  lemma UpwardBalances(t: Transform, points: seq<Pt>, lengths: seq<nat>, h: real)
    requires t.scaleY < 0.0 && Sum(lengths) <= |points|
    ensures Crossed(AllEdges(t, points, lengths), h) == 0
  {
    hide AllEdges, Sum;
    AllDirected(t, points, lengths);
    NothingCrossed(t, AllEdges(t, points, lengths), h);
  }

  lemma {:induction false} NothingCrossed(t: Transform, edges: seq<Edge>, h: real)
    requires t.scaleY < 0.0 && forall i | 0 <= i < |edges| :: Directed(t, edges[i])
    ensures Crossed(edges, h) == 0
  {
    if edges != [] {
      assert Directed(t, edges[|edges| - 1]);
      NothingCrossed(t, edges[..|edges| - 1], h);
    }
  }

  lemma NoEdges(t: Transform, points: seq<Pt>, h: real)
    ensures Sum([]) == 0 && Crossed(AllEdges(t, points, []), h) == 0
  {
  }

  lemma ContourBalances(t: Transform, c: seq<Pt>, h: real)
    requires t.scaleY >= 0.0
    ensures Crossed(ContourEdges(t, c, |c|), h) == 0
  {
    hide *;
    ContourCrossed(t, c, |c|, h);
  }

  lemma {:induction false} CrossedPermuted(a: seq<Edge>, b: seq<Edge>, h: real)
    requires multiset(a) == multiset(b)
    ensures Crossed(a, h) == Crossed(b, h)
    decreases |a|
  {
    hide Crossing;
    assert |multiset(a)| == |a| && |multiset(b)| == |b|;
    if a != [] {
      hide Crossed;
      var front, e := a[..|a| - 1], a[|a| - 1];
      assert a == front + [e];
      assert e in multiset(b);
      var i :| 0 <= i < |b| && b[i] == e;
      TakeOut(front, e, b, i);
      var rest := b[..i] + b[i + 1..];
      CrossedPermuted(front, rest, h);
      CrossedWithout(b, i, h);
      CrossedWithout(a, |a| - 1, h);
      assert a[..|a| - 1] + a[|a|..] == front;
    }
  }

  lemma TakeOut(front: seq<Edge>, e: Edge, b: seq<Edge>, i: nat)
    requires i < |b| && b[i] == e && multiset(front + [e]) == multiset(b)
    ensures multiset(front) == multiset(b[..i] + b[i + 1..])
  {
    assert b == b[..i] + [e] + b[i + 1..];
    assert multiset(front) == multiset(front + [e]) - multiset{e};
  }

  lemma CrossedWithout(s: seq<Edge>, i: nat, h: real)
    requires i < |s|
    ensures Crossed(s, h) == Crossed(s[..i] + s[i + 1..], h) + Crossing(s[i], h)
  {
    hide Crossing;
    var x, y := s[..i], s[i + 1..];
    assert s == x + ([s[i]] + y);
    CrossedConcat(x, y, h);
    CrossedConcat(x, [s[i]] + y, h);
    CrossedConcat([s[i]], y, h);
    assert [s[i]][..0] == [];
  }

  // ---------- Rows ----------

  function Directions(list: seq<ActiveEdge>, h: real): real {
    if list == [] then 0.0
    else Directions(list[1..], h) + (if list[0].sy < h <= list[0].ey then list[0].direction else 0.0)
  }

  /** At a level inside a row, the active list has all there is to cross. */
  lemma {:induction false} RowDirections(edges: seq<Edge>, offX: int, offY: int, row: nat, h: real)
    requires Top(offY, row) < h <= Top(offY, row) + 1.0
    ensures Directions(Row(edges, offX, offY, row), h) == Crossed(edges, h) as real
  {
    if edges != [] {
      var front, e := edges[..|edges| - 1], edges[|edges| - 1];
      RowDirections(front, offX, offY, row, h);
      RowStep(edges, offX, offY, row);
      hide Row;
      if Crosses(e, offY, row) {
        var list := [RowNode(e, offX, offY, row)] + Row(front, offX, offY, row);
        assert list[1..] == Row(front, offX, offY, row);
      }
    }
  }

  /** The directions of the active edges cancel at every level of every row. */
  lemma RowsBalance(t: Transform, points: seq<Pt>, lengths: seq<nat>, edges: seq<Edge>,
                    offX: int, offY: int, row: nat, h: real)
    requires Sum(lengths) <= |points|
    requires multiset(edges) == multiset(AllEdges(t, points, lengths))
    requires Top(offY, row) < h <= Top(offY, row) + 1.0
    ensures Directions(Row(edges, offX, offY, row), h) == 0.0
  {
    RowDirections(edges, offX, offY, row, h);
    CrossedPermuted(edges, AllEdges(t, points, lengths), h);
    EdgesBalance(t, points, lengths, h);
  }

  // ---------- The loop ----------

  /** Fills `e` from its front with the edges of all contours; `n` is how many there are. */
  method BuildEdges(t: Transform, points: array<Pt>, lengths: array<nat>, e: array<Edge>) returns (n: nat)
    requires Sum(lengths[..]) <= points.Length && Sum(lengths[..]) <= e.Length
    modifies e
    ensures n <= e.Length && e[..n] == AllEdges(t, points[..], lengths[..])
  {
    hide ContourEdges, Sum;
    n := 0;
    var m: nat := 0;
    EmptySum();
    for i := 0 to lengths.Length
      invariant Sum(lengths[..i]) == m <= points.Length && m <= Sum(lengths[..])
      invariant n <= m && e[..n] == AllEdges(t, points[..], lengths[..i])
    {
      ghost var done := e[..n];
      SumStep(lengths[..], i);
      assert lengths[..i + 1][..i] == lengths[..i];
      var start := m;
      m := m + lengths[i];
      n := AddContour(t, points, start, lengths[i], e, n);
    }
    assert lengths[..lengths.Length] == lengths[..];
  }

  lemma EmptySum()
    ensures Sum([]) == 0
  {
  }

  lemma {:induction false} SumStep(ns: seq<nat>, i: nat)
    requires i < |ns|
    ensures Sum(ns[..i + 1]) == Sum(ns[..i]) + ns[i]
    ensures Sum(ns[..i + 1]) <= Sum(ns)
    decreases |ns|
  {
    assert ns[..i + 1][..i] == ns[..i];
    if i + 1 < |ns| {
      var front := ns[..|ns| - 1];
      SumStep(front, i);
      assert front[..i + 1] == ns[..i + 1];
    } else {
      assert ns[..i + 1] == ns;
    }
  }

  method AddContour(t: Transform, points: array<Pt>, start: nat, length: nat, e: array<Edge>, n0: nat) returns (n: nat)
    requires start + length <= points.Length && n0 + length <= e.Length
    modifies e
    ensures n0 <= n <= n0 + length
    ensures e[..n] == old(e[..n0]) + ContourEdges(t, points[start..start + length], length)
  {
    hide LineEdge;
    n := n0;
    ghost var c := points[start..start + length];
    var j: int := length - 1;
    for k := 0 to length
      invariant j == if k == 0 then length - 1 else k - 1
      invariant n0 <= n <= n0 + k && e[..n] == old(e[..n0]) + ContourEdges(t, c, k)
    {
      var p, q := points[start + j], points[start + k];
      assert p == Before(c, k) && q == c[k];
      n := AddLine(t, p, q, e, n);
      j := k;
    }
  }

  method AddLine(t: Transform, p: Pt, q: Pt, e: array<Edge>, n0: nat) returns (n: nat)
    requires n0 < e.Length
    modifies e
    ensures n0 <= n <= n0 + 1 && e[..n] == old(e[..n0]) + LineEdge(t, p, q)
  {
    hide Transform.X, Transform.Y, Transform.Falls;
    n := n0;
    if p.y != q.y {
      var a, b := q, p;
      var falls := t.Falls(p, q);
      if falls {
        a, b := p, q;
      }
      e[n] := Edge(t.X(a), t.Y(a), t.X(b), t.Y(b), falls);
      n := n + 1;
    }
  }

  // ---------- All of it ----------

  /** `stbtt__rasterize`: edges, sorted, swept. What the coverage code is given on a row is balanced at every
      level of the row. */
  method Rasterize(t: Transform, points: array<Pt>, lengths: array<nat>, height: nat, offX: int, offY: int,
                   malloc: nat -> Address)
    returns (rows: seq<seq<ActiveEdge>>)
    requires Sum(lengths[..]) <= points.Length
    requires Separates(malloc, ChunkBytes(NODE_SIZE))
    ensures |rows| == height
    ensures RowsAre(rows, AllEdges(t, points[..], lengths[..]), offX, offY)
    ensures forall row, h | 0 <= row < height && Top(offY, row) < h <= Top(offY, row) + 1.0 ::
              Directions(rows[row], h) == 0.0
  {
    hide Sum, Sorted, Separates, Row, AllEdges, Directions;
    var n := TotalLength(lengths);
    var e := new Edge[n + 1](_ => Edge(0.0, 0.0, 0.0, 0.0, false));
    n := BuildEdges(t, points, lengths, e);
    SortEdges(e, n);
    ghost var edges := e[..n];
    var released;
    rows, released := RasterizeSortedEdges(e, n, height, offX, offY, malloc);
    forall row, h | 0 <= row < height && Top(offY, row) < h <= Top(offY, row) + 1.0
      ensures Directions(rows[row], h) == 0.0
    {
      RowsBalance(t, points[..], lengths[..], edges, offX, offY, row, h);
    }
  }

  /** The rows list the given edges in some order of their tops. */
  ghost predicate RowsAre(rows: seq<seq<ActiveEdge>>, edges: seq<Edge>, offX: int, offY: int) {
    exists sorted: seq<Edge> ::
      && Sorted(sorted) && multiset(sorted) == multiset(edges)
      && forall row | 0 <= row < |rows| :: rows[row] == Row(sorted, offX, offY, row)
  }

  method TotalLength(lengths: array<nat>) returns (n: nat)
    ensures n == Sum(lengths[..])
  {
    n := 0;
    for i := 0 to lengths.Length
      invariant n == Sum(lengths[..i])
    {
      assert lengths[..i + 1][..i] == lengths[..i];
      n := n + lengths[i];
    }
    assert lengths[..lengths.Length] == lengths[..];
  }

  /** `stbtt_Rasterize`: an outline without a contour gives nothing to draw. */
  method RasterizeOutline(flatness: real, sqrt: real -> real, vs: array<Vertex>, count: nat, t: Transform,
                          height: nat, offX: int, offY: int, malloc: nat -> Address)
    returns (rows: seq<seq<ActiveEdge>>)
    requires count <= vs.Length && t.Scale() != 0.0
    requires Separates(malloc, ChunkBytes(NODE_SIZE))
    ensures Moves(vs[..count]) == 0 ==> rows == []
    ensures Moves(vs[..count]) > 0 ==>
              && |rows| == height
              && var style := StyleFor(flatness, sqrt, t);
                 PointsSuffice(style, vs[..count])
                 && RowsAre(rows, AllEdges(t, Points(style, vs[..count]), Lengths(style, vs[..count])), offX, offY)
    ensures forall row, h | 0 <= row < |rows| && Top(offY, row) < h <= Top(offY, row) + 1.0 ::
              Directions(rows[row], h) == 0.0
  {
    hide Points, Lengths, Moves, Sum, Separates, RowsAre, Directions, AllEdges;
    var style := StyleFor(flatness, sqrt, t);
    LengthsSum(style, vs[..count]);
    var points, lengths, contours := FlattenCurves(style, vs, count);
    if points == null || lengths == null {
      return [];
    }
    rows := Rasterize(t, points, lengths, height, offX, offY, malloc);
  }

  /** The flatness in the units of the outline. */
  function StyleFor(flatness: real, sqrt: real -> real, t: Transform): Style
    requires t.Scale() != 0.0
  {
    var f := flatness / t.Scale();
    Style.Style(f * f, sqrt)
  }

  ghost predicate PointsSuffice(style: Style, vs: seq<Vertex>) {
    Sum(Lengths(style, vs)) <= |Points(style, vs)|
  }
}
