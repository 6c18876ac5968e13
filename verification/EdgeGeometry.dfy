/** Where the edges and the nodes of the sweep lie, in terms of the lines that they were made from. */
module EdgeGeometry {
  import opened CurveFlattening
  import opened CurveTessellation
  import opened EdgeBuilding
  import opened EdgeSort
  import opened EdgeSweep

  // ---------- One line ----------

  predicate OnEdge(x: real, y: real, e: Edge) { (x - e.x0) * (e.y1 - e.y0) == (e.x1 - e.x0) * (y - e.y0) }

  /** Whether the edge is the line from p to q, scaled and shifted: its ends are those of the line, the start
      first if the edge says that the line was drawn that way. */
  predicate IsImage(e: Edge, t: Transform, p: Pt, q: Pt) {
    && (if e.invert then e.x0 else e.x1) == p.x * t.scaleX + t.shiftX
    && (if e.invert then e.x1 else e.x0) == q.x * t.scaleX + t.shiftX
    && (if e.invert then e.y0 else e.y1) == (if t.invert then -(p.y * t.scaleY) else p.y * t.scaleY) + t.shiftY
    && (if e.invert then e.y1 else e.y0) == (if t.invert then -(q.y * t.scaleY) else q.y * t.scaleY) + t.shiftY
  }

  lemma LineEdgeIsImage(t: Transform, p: Pt, q: Pt)
    requires p.y != q.y
    ensures |LineEdge(t, p, q)| == 1 && IsImage(LineEdge(t, p, q)[0], t, p, q)
    ensures LineEdge(t, p, q)[0].invert <==> if t.invert then p.y > q.y else p.y < q.y
  {
    Opposite(p.y, t.scaleY);
    Opposite(q.y, t.scaleY);
  }

  lemma Opposite(x: real, y: real)
    ensures x * -y == -(x * y)
  {
  }

  /** Every point of the line is on the edge. */
  lemma LineIsOnEdge(e: Edge, t: Transform, p: Pt, q: Pt, s: real)
    requires IsImage(e, t, p, q)
    ensures var y := ((1.0 - s) * p.y + s * q.y) * t.scaleY;
            OnEdge(((1.0 - s) * p.x + s * q.x) * t.scaleX + t.shiftX, (if t.invert then -y else y) + t.shiftY, e)
  {
    Between(p.x, q.x, s, t.scaleX);
    Between(p.y, q.y, s, t.scaleY);
    var dx, dy := q.x * t.scaleX - p.x * t.scaleX, q.y * t.scaleY - p.y * t.scaleY;
    var x := ((1.0 - s) * p.x + s * q.x) * t.scaleX + t.shiftX;
    var y := ((1.0 - s) * p.y + s * q.y) * t.scaleY;
    hide IsImage, OnEdge;
    EndsOf(e, t, p, q);
    if t.invert {
      SameDirection(e, x, -y + t.shiftY, dx, -dy, s);
    } else {
      SameDirection(e, x, y + t.shiftY, dx, dy, s);
    }
  }

  /** The vector of an edge, and its first end on the line. */
  lemma EndsOf(e: Edge, t: Transform, p: Pt, q: Pt)
    requires IsImage(e, t, p, q)
    ensures var dx, dy := q.x * t.scaleX - p.x * t.scaleX, q.y * t.scaleY - p.y * t.scaleY;
            && e.x1 - e.x0 == (if e.invert then dx else -dx)
            && e.y1 - e.y0 == (if e.invert == t.invert then -dy else dy)
            && e.x0 == p.x * t.scaleX + t.shiftX + (if e.invert then 0.0 else dx)
            && e.y0 == (if t.invert then -(p.y * t.scaleY) else p.y * t.scaleY) + t.shiftY
                       + (if e.invert then 0.0 else if t.invert then -dy else dy)
  {
  }

  lemma Between(a: real, b: real, s: real, k: real)
    ensures ((1.0 - s) * a + s * b) * k == a * k + s * (b * k - a * k)
  {
    var d := b - a;
    assert (1.0 - s) * a + s * b == a + s * d;
    assert b * k - a * k == d * k;
    assert (a + s * d) * k == a * k + s * d * k;
    assert s * d * k == s * (d * k);
  }

  /** A step along the edge's own vector stays on it. */
  lemma SameDirection(e: Edge, x: real, y: real, dx: real, dy: real, s: real)
    requires e.x1 - e.x0 == (if e.invert then dx else -dx) && e.y1 - e.y0 == (if e.invert then dy else -dy)
    requires x - e.x0 == (if e.invert then s * dx else s * dx - dx)
    requires y - e.y0 == (if e.invert then s * dy else s * dy - dy)
    ensures OnEdge(x, y, e)
  {
    Exchange(s, dx, dy);
    if e.invert {
      assert (x - e.x0) * (e.y1 - e.y0) == (s * dx) * dy;
    } else {
      Exchange(s - 1.0, dx, dy);
      assert s * dx - dx == (s - 1.0) * dx && s * dy - dy == (s - 1.0) * dy;
      Opposite((s - 1.0) * dx, dy);
      Opposite((s - 1.0) * dy, dx);
    }
  }

  lemma Exchange(s: real, x: real, y: real)
    ensures (s * x) * y == x * (s * y)
  {
  }

  // ---------- All lines ----------

  /** The start and the end of line k of contour j, whose points follow those of the contours before it; line 0
      comes from the last point. */
  predicate IsLine(points: seq<Pt>, lengths: seq<nat>, j: nat, k: nat, p: Pt, q: Pt) {
    && j < |lengths| && k < lengths[j] && Sum(lengths[..j]) + lengths[j] <= |points|
    && var start := Sum(lengths[..j]);
       p == points[start + (if k == 0 then lengths[j] - 1 else k - 1)] && q == points[start + k]
  }

  /** Every line that is not horizontal has its edge. */
  lemma {:induction false} LineHasEdge(t: Transform, points: seq<Pt>, lengths: seq<nat>, j: nat, k: nat, p: Pt, q: Pt)
    requires Sum(lengths) <= |points| && IsLine(points, lengths, j, k, p, q) && p.y != q.y
    ensures |LineEdge(t, p, q)| == 1 && LineEdge(t, p, q)[0] in AllEdges(t, points, lengths)
    decreases |lengths|
  {
    hide IsImage, LineEdge, AllEdges, Sum, ContourEdges, IsLine, EdgeBuilding.Before;
    LineOfFront(points, lengths, j, k, p, q);
    LastContour(t, points, lengths);
    LineEdgeIsImage(t, p, q);
    var front, last := lengths[..|lengths| - 1], lengths[|lengths| - 1];
    if j < |front| {
      LineHasEdge(t, points, front, j, k, p, q);
    } else {
      ContourLineHasEdge(t, points[Sum(front)..Sum(front) + last], last, k);
    }
  }

  /** A line belongs to the last contour or to those before it. */
  lemma LineOfFront(points: seq<Pt>, lengths: seq<nat>, j: nat, k: nat, p: Pt, q: Pt)
    requires Sum(lengths) <= |points| && IsLine(points, lengths, j, k, p, q)
    ensures lengths != []
    ensures var front, last := lengths[..|lengths| - 1], lengths[|lengths| - 1];
            && Sum(front) + last == Sum(lengths)
            && if j < |front| then IsLine(points, front, j, k, p, q)
               else
                 var c := points[Sum(front)..Sum(front) + last];
                 k < last == |c| && EdgeBuilding.Before(c, k) == p && c[k] == q
  {
    var front, last := lengths[..|lengths| - 1], lengths[|lengths| - 1];
    assert Sum(front) + last == Sum(lengths);
    hide Sum;
    if j < |front| { assert front[..j] == lengths[..j]; } else { assert lengths[..j] == front; }
  }

  lemma LastContour(t: Transform, points: seq<Pt>, lengths: seq<nat>)
    requires lengths != [] && Sum(lengths) <= |points|
    ensures var front, last := lengths[..|lengths| - 1], lengths[|lengths| - 1];
            && Sum(lengths) == Sum(front) + last
            && AllEdges(t, points, lengths)
            == AllEdges(t, points, front) + ContourEdges(t, points[Sum(front)..Sum(front) + last], last)
  {
    hide ContourEdges;
  }

  /** So every point of every line of the outline that is not horizontal is on an edge. */
  lemma LineIsDrawn(t: Transform, points: seq<Pt>, lengths: seq<nat>, j: nat, k: nat, p: Pt, q: Pt, s: real)
    requires Sum(lengths) <= |points| && IsLine(points, lengths, j, k, p, q) && p.y != q.y
    ensures |LineEdge(t, p, q)| == 1
    ensures var e := LineEdge(t, p, q)[0];
            var x, y := ((1.0 - s) * p.x + s * q.x) * t.scaleX, ((1.0 - s) * p.y + s * q.y) * t.scaleY;
            && e in AllEdges(t, points, lengths)
            && (e.invert <==> if t.invert then p.y > q.y else p.y < q.y)
            && (x + t.shiftX - e.x0) * (e.y1 - e.y0)
            == (e.x1 - e.x0) * ((if t.invert then -y else y) + t.shiftY - e.y0)
  {
    hide AllEdges, IsLine, IsImage, LineEdge;
    LineHasEdge(t, points, lengths, j, k, p, q);
    LineEdgeIsImage(t, p, q);
    LineIsOnEdge(LineEdge(t, p, q)[0], t, p, q, s);
  }

  lemma {:induction false} ContourLineHasEdge(t: Transform, c: seq<Pt>, n: nat, k: nat)
    requires k < n <= |c| && EdgeBuilding.Before(c, k).y != c[k].y
    ensures |LineEdge(t, EdgeBuilding.Before(c, k), c[k])| == 1
    ensures LineEdge(t, EdgeBuilding.Before(c, k), c[k])[0] in ContourEdges(t, c, n)
  {
    hide Transform.X, Transform.Y, Transform.Falls;
    if k < n - 1 { ContourLineHasEdge(t, c, n - 1, k); }
  }

  /** Every edge comes from such a line. */
  lemma {:induction false} EdgeHasLine(t: Transform, points: seq<Pt>, lengths: seq<nat>, e: Edge)
    returns (j: nat, k: nat, p: Pt, q: Pt)
    requires Sum(lengths) <= |points| && e in AllEdges(t, points, lengths)
    ensures IsLine(points, lengths, j, k, p, q) && p.y != q.y && IsImage(e, t, p, q)
  {
    hide ContourEdges, IsImage;
    var front, last := lengths[..|lengths| - 1], lengths[|lengths| - 1];
    var c := points[Sum(front)..Sum(front) + last];
    if e in AllEdges(t, points, front) {
      j, k, p, q := EdgeHasLine(t, points, front, e);
      assert front[..j] == lengths[..j];
    } else {
      k := ContourEdgeHasLine(t, c, last, e);
      j, p, q := |front|, EdgeBuilding.Before(c, k), c[k];
      assert lengths[..j] == front;
      LineEdgeIsImage(t, p, q);
    }
  }

  lemma {:induction false} ContourEdgeHasLine(t: Transform, c: seq<Pt>, n: nat, e: Edge) returns (k: nat)
    requires n <= |c| && e in ContourEdges(t, c, n)
    ensures k < n && EdgeBuilding.Before(c, k).y != c[k].y && LineEdge(t, EdgeBuilding.Before(c, k), c[k]) == [e]
  {
    hide Transform.X, Transform.Y, Transform.Falls;
    if e in ContourEdges(t, c, n - 1) {
      k := ContourEdgeHasLine(t, c, n - 1, e);
    } else {
      k := n - 1;
    }
  }

  /** How many lines of the contours are not horizontal. */
  function SlopedLines(points: seq<Pt>, lengths: seq<nat>): nat
    requires Sum(lengths) <= |points|
  {
    if lengths == [] then 0
    else
      var front, last := lengths[..|lengths| - 1], lengths[|lengths| - 1];
      SlopedLines(points, front) + Sloped(points[Sum(front)..Sum(front) + last], last)
  }

  function Sloped(c: seq<Pt>, k: nat): nat
    requires k <= |c|
  {
    if k == 0 then 0
    else Sloped(c, k - 1) + if c[k - 1].y != c[if k == 1 then |c| - 1 else k - 2].y then 1 else 0
  }

  lemma LastSloped(points: seq<Pt>, lengths: seq<nat>)
    requires lengths != [] && Sum(lengths) <= |points|
    ensures var front, last := lengths[..|lengths| - 1], lengths[|lengths| - 1];
            && Sum(lengths) == Sum(front) + last
            && SlopedLines(points, lengths)
            == SlopedLines(points, front) + Sloped(points[Sum(front)..Sum(front) + last], last)
  {
    hide Sloped;
  }

  /** And each of them just one. */
  lemma {:induction false} EdgesAreCounted(t: Transform, points: seq<Pt>, lengths: seq<nat>)
    requires Sum(lengths) <= |points|
    ensures |AllEdges(t, points, lengths)| == SlopedLines(points, lengths)
  {
    hide *;
    if lengths == [] {
      NoEdges(t, points, lengths);
    } else {
      var front, last := lengths[..|lengths| - 1], lengths[|lengths| - 1];
      LastContour(t, points, lengths);
      LastSloped(points, lengths);
      EdgesAreCounted(t, points, front);
      ContourEdgesAreCounted(t, points[Sum(front)..Sum(front) + last], last);
    }
  }

  lemma NoEdges(t: Transform, points: seq<Pt>, lengths: seq<nat>)
    requires lengths == [] && Sum(lengths) <= |points|
    ensures AllEdges(t, points, lengths) == [] && SlopedLines(points, lengths) == 0
  {
  }

  lemma {:induction false} ContourEdgesAreCounted(t: Transform, c: seq<Pt>, k: nat)
    requires k <= |c|
    ensures |ContourEdges(t, c, k)| == Sloped(c, k)
  {
    hide Transform.X, Transform.Y, Transform.Falls;
    if k > 0 { ContourEdgesAreCounted(t, c, k - 1); }
  }

  // ---------- Rows ----------

  /** What a node takes over from its edge. */
  lemma NodeFields(e: Edge, offX: int, offY: int, row: nat)
    requires e.y0 != e.y1
    ensures var z, top := RowNode(e, offX, offY, row), (offY + row) as real;
            && z.sy == e.y0 && z.direction == (if e.invert then 1.0 else -1.0)
            && z.ey == (if row == 0 && offY != 0 && e.y1 < top then top else e.y1)
            && z.fdx * (e.y1 - e.y0) == e.x1 - e.x0
            && (if e.x0 == e.x1 then z.fdx == z.fdy == 0.0 else z.fdx * z.fdy == 1.0)
  {
    Quotient(e.x1 - e.x0, e.y1 - e.y0);
    if e.x0 != e.x1 { Inverse(Slope(e)); }
  }

  lemma Quotient(x: real, y: real)
    requires y != 0.0
    ensures x / y * y == x && (x == 0.0 <==> x / y == 0.0)
  {
  }

  lemma Inverse(x: real)
    requires x != 0.0
    ensures x * (1.0 / x) == 1.0
  {
  }

  /** Every node of a row comes from an edge that reaches the row. */
  lemma {:induction false} NodeHasEdge(edges: seq<Edge>, offX: int, offY: int, row: nat, i: nat) returns (e: Edge)
    requires i < |Row(edges, offX, offY, row)|
    ensures e in edges && e.y0 != e.y1 && e.y0 <= (offY + row) as real + 1.0
    ensures row == 0 || e.y0 > (offY + row) as real || e.y1 > (offY + row) as real
    ensures Row(edges, offX, offY, row)[i] == RowNode(e, offX, offY, row)
  {
    hide RowNode;
    var front, last := edges[..|edges| - 1], edges[|edges| - 1];
    RowStep(edges, offX, offY, row);
    if Crosses(last, offY, row) {
      if i == 0 { e := last; } else { e := NodeHasEdge(front, offX, offY, row, i - 1); }
    } else {
      e := NodeHasEdge(front, offX, offY, row, i);
    }
  }

  /** And every such edge has its node on the row. */
  lemma EdgeHasNode(edges: seq<Edge>, offX: int, offY: int, row: nat, i: nat)
    requires i < |edges| && edges[i].y0 != edges[i].y1 && edges[i].y0 <= (offY + row) as real + 1.0
    requires row == 0 || edges[i].y0 > (offY + row) as real || edges[i].y1 > (offY + row) as real
    ensures RowNode(edges[i], offX, offY, row) in Row(edges, offX, offY, row)
  {
    assert Crosses(edges[i], offY, row);
    hide Row, RowNode, Crosses;
    RowHoldsEachCrossingOnce(edges, offX, offY, row, i);
  }

  /** Every node of every row that the rasterizer hands out is where some line of the outline, scaled and shifted,
      meets the top of the row. */
  lemma NodeIsOnItsLine(t: Transform, points: seq<Pt>, lengths: seq<nat>, rows: seq<seq<ActiveEdge>>,
                        offX: int, offY: int, row: nat, i: nat)
    returns (j: nat, k: nat, p: Pt, q: Pt, s: real)
    requires Sum(lengths) <= |points| && RowsAre(rows, AllEdges(t, points, lengths), offX, offY)
    requires row < |rows| && i < |rows[row]|
    ensures IsLine(points, lengths, j, k, p, q) && p.y != q.y
    ensures var y := ((1.0 - s) * p.y + s * q.y) * t.scaleY;
            && (if t.invert then -y else y) + t.shiftY == (offY + row) as real
            && ((1.0 - s) * p.x + s * q.x) * t.scaleX + t.shiftX == rows[row][i].fx + offX as real
  {
    hide AllEdges, IsImage, IsLine, Row, RowNode, Sorted;
    var sorted: seq<Edge> :|
      && Sorted(sorted) && multiset(sorted) == multiset(AllEdges(t, points, lengths))
      && forall row | 0 <= row < |rows| :: rows[row] == Row(sorted, offX, offY, row);
    var e := NodeHasEdge(sorted, offX, offY, row, i);
    assert e in multiset(AllEdges(t, points, lengths));
    j, k, p, q := EdgeHasLine(t, points, lengths, e);
    NodeIsOnItsEdge(e, offX, offY, row);
    s := MeetsTop(e, t, p, q, rows[row][i].fx + offX as real, (offY + row) as real);
  }

  /** The fraction of a line at a given height. */
  lemma MeetsTop(e: Edge, t: Transform, p: Pt, q: Pt, x: real, top: real) returns (s: real)
    requires IsImage(e, t, p, q) && e.y0 != e.y1 && (x - e.x0) * (e.y1 - e.y0) == (e.x1 - e.x0) * (top - e.y0)
    ensures var y := ((1.0 - s) * p.y + s * q.y) * t.scaleY;
            && (if t.invert then -y else y) + t.shiftY == top
            && ((1.0 - s) * p.x + s * q.x) * t.scaleX + t.shiftX == x
  {
    var r := (top - e.y0) / (e.y1 - e.y0);
    s := if e.invert then r else 1.0 - r;
    Quotient(top - e.y0, e.y1 - e.y0);
    Between(p.x, q.x, s, t.scaleX);
    Between(p.y, q.y, s, t.scaleY);
    EndsOf(e, t, p, q);
    hide IsImage;
    var dx, dy := q.x * t.scaleX - p.x * t.scaleX, q.y * t.scaleY - p.y * t.scaleY;
    Cancel(x - e.x0, e.x1 - e.x0, e.y1 - e.y0, r, top - e.y0);
    OneMinus(r, dx);
    OneMinus(r, dy);
    Opposite(r, dx);
    Opposite(r, dy);
  }

  lemma Cancel(u: real, w: real, h: real, r: real, v: real)
    requires h != 0.0 && u * h == w * v && r * h == v
    ensures u == r * w
  {
    assert w * v == w * (r * h) == (r * w) * h;
    assert (u - r * w) * h == 0.0;
  }

  lemma OneMinus(r: real, d: real)
    ensures (1.0 - r) * d == d - r * d
  {
  }

  // ---------- Tolerance ----------

  /** Points within the tolerance of the outline's curves are, scaled by the same factor along both axes, within the
      flatness in pixels; with two factors this holds for the smaller one. */
  lemma ToleranceInPixels(t: Transform, flatness: real, sqrt: real -> real, p: Pt, q: Pt, k: real)
    requires k != 0.0 && k <= t.scaleX && k <= t.scaleY && (k == t.scaleX || k == t.scaleY)
    requires Dist2(p, q) <= StyleFor(flatness, sqrt, t).flat2
    ensures (p.x * k - q.x * k) * (p.x * k - q.x * k) + (p.y * k - q.y * k) * (p.y * k - q.y * k)
         <= flatness * flatness
  {
    var f := flatness / k;
    Quotient(flatness, k);
    ScaledSquare(f, k);
    ScaledSquare(p.x - q.x, k);
    ScaledSquare(p.y - q.y, k);
    ScaledDifference(p.x, q.x, k);
    ScaledDifference(p.y, q.y, k);
    ScaledBound((p.x - q.x) * (p.x - q.x), (p.y - q.y) * (p.y - q.y), f * f, k * k);
  }

  lemma ScaledDifference(a: real, b: real, k: real)
    ensures a * k - b * k == (a - b) * k
  {
  }

  lemma ScaledSquare(a: real, k: real)
    ensures (a * k) * (a * k) == a * a * (k * k) && k * k >= 0.0
  {
    var b := a * k;
    assert b * b == a * (k * b) && k * b == a * (k * k);
  }

  lemma ScaledBound(a: real, b: real, c: real, k2: real)
    requires a + b <= c && k2 >= 0.0
    ensures a * k2 + b * k2 <= c * k2
  {
    assert (c - a - b) * k2 >= 0.0;
  }
}
