/** `stbtt__GetGlyphShapeTT`: the raw points are loaded into the end of the output array and then
    expanded in place from its front. */
module TrueTypeDecoder {
  import opened MachineInts
  import opened FontMemory
  import opened GlyphOutline
  import opened TrueTypeOutline
  import opened Wrappers

  /** `stbtt_vertex`, whose type byte first holds a point's flags and later the kind of a vertex. */
  datatype Record = Record(tag: byte, x: int, y: int, cx: int, cy: int)

  const VMOVE: byte := 1
  const VLINE: byte := 2
  const VCURVE: byte := 3

  function TagOf(kind: VertexKind): byte {
    match kind case VMove => VMOVE case VLine => VLINE case VCurve => VCURVE case VCubic => 4
  }

  /** How the outline vertex `v` looks in the array. */
  function RecordOf(v: Vertex): Record {
    Record.Record(TagOf(v.kind), ToInt16(v.x), ToInt16(v.y), ToInt16(v.cx), ToInt16(v.cy))
  }

  /** The point whose raw data `r` holds. */
  function PointOf(r: Record): Pt { Pt.Pt(Has(r.tag, 1), r.x, r.y) }

  /** The front of the array holds exactly the vertices `vs`. */
  ghost predicate Holds(vertices: array<Record>, vs: seq<Vertex>)
    reads vertices
  {
    |vs| <= vertices.Length && forall k | 0 <= k < |vs| :: vertices[k] == RecordOf(vs[k])
  }

  /** The raw points from number `i` on are still in place behind offset `off`. */
  ghost predicate Unread(vertices: array<Record>, off: nat, points: seq<Pt>, i: int)
    reads vertices
  {
    off + |points| == vertices.Length
    && i >= 0
    && forall q | off + i <= q < vertices.Length :: PointOf(vertices[q]) == points[q - off]
  }

  // ---------- Loading ----------

  method LoadFlags(mem: Memory, p: int, vertices: array<Record>, off: nat, n: nat) returns (end: int)
    requires off + n == vertices.Length
    modifies vertices
    ensures end == FlagsEnd(mem, p, n)
    ensures forall q | off <= q < off + n :: vertices[q].tag == Flags(mem, p, n)[q - off]
  {
    hide Has, Flags, FlagsEnd, InRun;
    ghost var all := Flags(mem, p, n);
    RunStart(mem, p, n);
    end := p;
    var flags: byte, flagCount: nat, i := 0, 0, 0;
    ghost var todo := all;
    while i < n
      invariant 0 <= i <= n && todo == all[i..]
      invariant forall q | off <= q < off + i :: vertices[q].tag == all[q - off]
      invariant InRun(mem, end, flags, flagCount, n - i, todo)
      invariant FlagsEnd(mem, p, n) == FlagsEnd(mem, end, n - i - Min(flagCount, n - i))
    {
      RunStep(mem, end, flags, flagCount, n - i, todo);
      if flagCount == 0 {
        flags := mem(end);
        end := end + 1;
        if Has(flags, 8) {
          flagCount := mem(end);
          end := end + 1;
        }
      } else {
        flagCount := flagCount - 1;
      }
      vertices[off + i] := vertices[off + i].(tag := flags);
      i, todo := i + 1, todo[1..];
    }
    RunEnd(mem, end);
  }

  /** `todo` is the rest of the current run followed by the flags encoded from `p` on. */
  ghost predicate InRun(mem: Memory, p: int, flag: byte, count: nat, left: nat, todo: seq<byte>) {
    var r := Min(count, left);
    todo == Repeat(flag, r) + Flags(mem, p, left - r)
  }

  lemma RunStart(mem: Memory, p: int, n: nat)
    ensures InRun(mem, p, 0, 0, n, Flags(mem, p, n))
  {
  }

  lemma RunEnd(mem: Memory, p: int)
    ensures FlagsEnd(mem, p, 0) == p
  {
  }

  lemma RunStep(mem: Memory, p: int, flag: byte, count: nat, left: nat, todo: seq<byte>)
    requires left > 0 && InRun(mem, p, flag, count, left, todo)
    ensures |todo| == left
    ensures count > 0 ==> todo[0] == flag && InRun(mem, p, flag, count - 1, left - 1, todo[1..])
    ensures count == 0 ==>
              var count' := if Has(mem(p), 8) then mem(p + 1) else 0;
              && todo[0] == mem(p)
              && InRun(mem, AfterRun(mem, p), mem(p), count', left - 1, todo[1..])
              && FlagsEnd(mem, p, left) == FlagsEnd(mem, AfterRun(mem, p), left - 1 - Min(count', left - 1))
  {
    hide Has;
  }

  function WithCoordinate(r: Record, axis: Axis, v: int): Record {
    if axis == X_AXIS then r.(x := v) else r.(y := v)
  }

  /** Loads one coordinate of every point; the sums are kept unreduced until they are stored. */
  method LoadAxis(mem: Memory, p: int, axis: Axis, vertices: array<Record>, off: nat, n: nat, ghost flags: seq<byte>)
    returns (end: int)
    requires IsAxis(axis) && off + n == vertices.Length && |flags| == n
    requires forall q | off <= q < off + n :: vertices[q].tag == flags[q - off]
    modifies vertices
    ensures end == DeltasEnd(mem, p, axis, flags)
    ensures forall q | off <= q < off + n :: vertices[q] ==
              WithCoordinate(old(vertices[q]), axis, ToInt16(Position(mem, p, axis, flags[..q - off + 1])))
  {
    hide ToInt16, Has, WithCoordinate, Position, DeltasEnd, Short;
    EmptyPosition(mem, p, axis, flags);
    end := p;
    var v := 0;
    for i := 0 to n
      invariant end == DeltasEnd(mem, p, axis, flags[..i]) && v == Position(mem, p, axis, flags[..i])
      invariant forall q | off <= q < off + i :: vertices[q] ==
                  WithCoordinate(old(vertices[q]), axis, ToInt16(Position(mem, p, axis, flags[..q - off + 1])))
      invariant forall q | off + i <= q < off + n :: vertices[q] == old(vertices[q])
    {
      var flag := vertices[off + i].tag;
      assert flag == flags[i];
      NextPosition(mem, p, axis, flags, i);
      if Has(flag, axis.shortBit) {
        var d := mem(end);
        end := end + 1;
        v := if Has(flag, axis.sameBit) then v + d else v - d;
      } else if !Has(flag, axis.sameBit) {
        v := v + Short(mem, end);
        end := end + 2;
      }
      vertices[off + i] := WithCoordinate(vertices[off + i], axis, ToInt16(v));
    }
    assert flags[..n] == flags;
  }

  // ---------- Expanding in place ----------

  function LinkAll(c: Chain, points: seq<Pt>): Chain
    decreases |points|
  {
    if points == [] then c else LinkAll(Link(c, points[0]), points[1..])
  }

  /** The outline and the open chain when contour `j - 1` has been read up to point `i`. */
  function Progress(points: seq<Pt>, ends: seq<nat>, j: nat, i: nat): (c: Chain)
    requires WellFormed(points, ends) && 1 <= j <= |ends|
    requires InContour(points, ends, j, i)
    ensures |c.out| <= i + 2 * (j - 1)
  {
    var s := ContourStart(ends, j - 1);
    var contour := ContourPoints(points, ends, j - 1);
    var w := Walk(contour[StartLength(contour)..i - s]);
    Chain.Chain(w.pending, Outline(points, ends, j - 1) + [MoveTo(StartOf(contour))] + w.out)
  }

  /** Point number `i` lies behind the start of contour `j - 1` and not beyond its end. */
  predicate InContour(points: seq<Pt>, ends: seq<nat>, j: nat, i: nat)
    requires WellFormed(points, ends) && 1 <= j <= |ends|
  {
    ContourStart(ends, j - 1) + StartLength(ContourPoints(points, ends, j - 1)) <= i <= ends[j - 1] + 1
  }

  lemma ProgressStart(points: seq<Pt>, ends: seq<nat>, j: nat)
    requires WellFormed(points, ends) && 1 <= j <= |ends|
    ensures var c := ContourPoints(points, ends, j - 1);
            var i := ContourStart(ends, j - 1) + StartLength(c);
            && InContour(points, ends, j, i)
            && Progress(points, ends, j, i)
               == Chain.Chain(None, Outline(points, ends, j - 1) + [MoveTo(StartOf(c))])
  {
    var c := ContourPoints(points, ends, j - 1);
    assert c[StartLength(c)..StartLength(c)] == [];
  }

  lemma ProgressStep(points: seq<Pt>, ends: seq<nat>, j: nat, i: nat)
    requires WellFormed(points, ends) && 1 <= j <= |ends|
    requires InContour(points, ends, j, i) && i <= ends[j - 1]
    ensures Progress(points, ends, j, i + 1) == Link(Progress(points, ends, j, i), points[i])
  {
    hide Outline, StartOf, Walk, Link, ContourPoints;
    var s := ContourStart(ends, j - 1);
    var c := ContourPoints(points, ends, j - 1);
    ContourPointAt(points, ends, j, i);
    RingStep(c, i - s);
    LinkBehind(Outline(points, ends, j - 1) + [MoveTo(StartOf(c))], Walk(c[StartLength(c)..i - s]), points[i]);
  }

  lemma ContourPointAt(points: seq<Pt>, ends: seq<nat>, j: nat, i: nat)
    requires WellFormed(points, ends) && 1 <= j <= |ends|
    requires InContour(points, ends, j, i) && i <= ends[j - 1]
    ensures var c := ContourPoints(points, ends, j - 1);
            var k := i - ContourStart(ends, j - 1);
            StartLength(c) <= k < |c| && c[k] == points[i]
  {
  }

  lemma RingStep(c: seq<Pt>, k: nat)
    requires ValidContour(c) && StartLength(c) <= k < |c|
    ensures Walk(c[StartLength(c)..k + 1]) == Link(Walk(c[StartLength(c)..k]), c[k])
  {
    hide Walk, Link;
    assert c[StartLength(c)..k + 1] == c[StartLength(c)..k] + [c[k]];
    WalkAppend(c[StartLength(c)..k], c[k]);
  }

  lemma ProgressClose(points: seq<Pt>, ends: seq<nat>, j: nat)
    requires WellFormed(points, ends) && 1 <= j <= |ends|
    requires InContour(points, ends, j, ends[j - 1] + 1)
    ensures LinkAll(Progress(points, ends, j, ends[j - 1] + 1), Closing(ContourPoints(points, ends, j - 1))).out
         == Outline(points, ends, j)
  {
    hide Walk, Link, StartOf;
    var c := ContourPoints(points, ends, j - 1);
    assert c[StartLength(c)..ends[j - 1] + 1 - ContourStart(ends, j - 1)] == c[StartLength(c)..];
    CloseRing(Outline(points, ends, j - 1) + [MoveTo(StartOf(c))], c);
  }

  /** Linking the closing points one by one is walking the whole ring. */
  lemma CloseRing(base: seq<Vertex>, c: seq<Pt>)
    requires ValidContour(c)
    ensures var ring := c[StartLength(c)..];
            LinkAll(Walk(ring).(out := base + Walk(ring).out), Closing(c)).out
            == base + Walk(ring + Closing(c)).out
  {
    hide Walk, Link, StartOf;
    var ring, start := c[StartLength(c)..], StartOf(c);
    assert [c[0], start][1..] == [start] && [start][1..] == [];
    if c[0].on {
      assert Closing(c) == [start];
      WalkAppend(ring, start);
      LinkBehind(base, Walk(ring), start);
    } else {
      var ring1 := ring + [c[0]];
      assert ring1 + [start] == ring + Closing(c);
      WalkAppend(ring, c[0]);
      WalkAppend(ring1, start);
      LinkBehind(base, Walk(ring), c[0]);
      LinkBehind(base, Walk(ring1), start);
      var w := Walk(ring).(out := base + Walk(ring).out);
      assert LinkAll(w, [c[0], start]) == LinkAll(Link(w, c[0]), [start]);
    }
  }

  lemma LinkBehind(base: seq<Vertex>, w: Chain, p: Pt)
    ensures Link(w.(out := base + w.out), p) == Link(w, p).(out := base + Link(w, p).out)
  {
  }

  /** `stbtt_setvertex` on the next free record. */
  method PutVertex(vertices: array<Record>, num: nat, kind: VertexKind, x: int, y: int, cx: int, cy: int,
                   ghost out: seq<Vertex>)
    requires num == |out| < vertices.Length && Holds(vertices, out)
    modifies vertices
    ensures Holds(vertices, out + [Vertex(kind, x, y, cx, cy, 0, 0)])
    ensures forall q | num < q < vertices.Length :: vertices[q] == old(vertices[q])
  {
    hide ToInt16;
    vertices[num] := Record.Record(TagOf(kind), ToInt16(x), ToInt16(y), ToInt16(cx), ToInt16(cy));
  }

  /** The variables of the loop that describe the open chain. */
  predicate Tracks(c: Chain, num: nat, wasOff: bool, cx: int, cy: int) {
    && num == |c.out|
    && wasOff == c.pending.Some?
    && (wasOff ==> c.pending.value == Pt.Pt(false, cx, cy))
  }

  /** `stbtt__close_shape`. */
  method CloseShape(vertices: array<Record>, num: nat, wasOff: bool, startOff: bool, sx: int, sy: int,
                    scx: int, scy: int, cx: int, cy: int, ghost c: Chain)
    returns (num': nat)
    requires Tracks(c, num, wasOff, cx, cy) && Holds(vertices, c.out) && num + 2 <= vertices.Length
    modifies vertices
    ensures var start := Pt.Pt(true, sx, sy);
            var closing := if startOff then [Pt.Pt(false, scx, scy), start] else [start];
            num' == |LinkAll(c, closing).out| <= num + 2 && Holds(vertices, LinkAll(c, closing).out)
    ensures forall q | num + 2 <= q < vertices.Length :: vertices[q] == old(vertices[q])
  {
    hide Holds;
    ghost var start, first := Pt.Pt(true, sx, sy), Pt.Pt(false, scx, scy);
    assert [first, start][1..] == [start] && [start][1..] == [];
    num' := num;
    if startOff {
      ghost var out := c.out;
      if wasOff {
        PutVertex(vertices, num', VCurve, (cx + scx) / 2, (cy + scy) / 2, cx, cy, out);
        out := Link(c, first).out;
        num' := num' + 1;
      }
      PutVertex(vertices, num', VCurve, sx, sy, scx, scy, out);
      assert LinkAll(c, [first, start]) == LinkAll(Link(c, first), [start]) == Link(Link(c, first), start);
    } else {
      if wasOff {
        PutVertex(vertices, num', VCurve, sx, sy, cx, cy, c.out);
      } else {
        PutVertex(vertices, num', VLine, sx, sy, 0, 0, c.out);
      }
      assert LinkAll(c, [start]) == Link(c, start);
    }
    num' := num' + 1;
  }

  /** The contour ends stored from address `p` on. */
  ghost predicate EndsAt(mem: Memory, p: int, ends: seq<nat>) {
    forall j | 0 <= j < |ends| :: UShort(mem, p + 2 * j) == ends[j]
  }

  /** The variables of the loop that describe the start of the contour `c`. */
  predicate Starts(c: seq<Pt>, startOff: bool, sx: int, sy: int, scx: int, scy: int)
    requires ValidContour(c)
  {
    && startOff == !c[0].on
    && StartOf(c) == Pt.Pt(true, sx, sy)
    && (startOff ==> c[0] == Pt.Pt(false, scx, scy))
  }

  /** The state of the loop when contour `j - 1` is being read and point `i` is next. */
  ghost predicate Reading(vertices: array<Record>, points: seq<Pt>, ends: seq<nat>, j: nat, i: nat, num: nat,
                          wasOff: bool, cx: int, cy: int, startOff: bool, sx: int, sy: int, scx: int, scy: int)
    requires WellFormed(points, ends) && 1 <= j <= |ends|
    reads vertices
  {
    && InContour(points, ends, j, i)
    && Tracks(Progress(points, ends, j, i), num, wasOff, cx, cy)
    && Holds(vertices, Progress(points, ends, j, i).out)
    && Starts(ContourPoints(points, ends, j - 1), startOff, sx, sy, scx, scy)
  }

  /** Reads where the contour `c`, whose raw points start at `i`, begins. */
  method FindStart(vertices: array<Record>, off: nat, i: nat, ghost points: seq<Pt>, ghost c: seq<Pt>)
    returns (startOff: bool, sx: int, sy: int, scx: int, scy: int, i': nat)
    requires ValidContour(c) && i + |c| <= |points| && c == points[i..i + |c|]
    requires Unread(vertices, off, points, i)
    ensures Starts(c, startOff, sx, sy, scx, scy) && i' + 1 == i + StartLength(c)
  {
    hide Has;
    var first := vertices[off + i];
    assert PointOf(first) == c[0];
    i' := i;
    startOff := !Has(first.tag, 1);
    sx, sy, scx, scy := first.x, first.y, 0, 0;
    if startOff {
      scx, scy := first.x, first.y;
      var next := vertices[off + i + 1];
      assert PointOf(next) == c[1];
      if !Has(next.tag, 1) {
        sx, sy := (first.x + next.x) / 2, (first.y + next.y) / 2;
      } else {
        sx, sy := next.x, next.y;
        i' := i + 1;
      }
    }
  }

  /** Starts contour `j` at its first raw point. */
  method BeginContour(vertices: array<Record>, off: nat, num: nat, i: nat, ghost cx: int, ghost cy: int,
                      ghost points: seq<Pt>, ghost ends: seq<nat>, ghost j: nat)
    returns (startOff: bool, sx: int, sy: int, scx: int, scy: int, i': nat)
    requires WellFormed(points, ends) && j < |ends| && i == ContourStart(ends, j) && off == 2 * |ends|
    requires num == |Outline(points, ends, j)| && Holds(vertices, Outline(points, ends, j))
    requires Unread(vertices, off, points, i)
    modifies vertices
    ensures i <= i' && Unread(vertices, off, points, i + 1)
    ensures Reading(vertices, points, ends, j + 1, i' + 1, num + 1, false, cx, cy, startOff, sx, sy, scx, scy)
  {
    hide Outline, Walk, Holds, Has, Progress;
    ghost var c := ContourPoints(points, ends, j);
    startOff, sx, sy, scx, scy, i' := FindStart(vertices, off, i, points, c);
    PutVertex(vertices, num, VMove, sx, sy, 0, 0, Outline(points, ends, j));
    ProgressStart(points, ends, j + 1);
  }

  /** Adds one point after the start of its contour. */
  method AddPoint(vertices: array<Record>, num: nat, wasOff: bool, cx: int, cy: int, on: bool, x: int, y: int,
                  ghost c: Chain)
    returns (num': nat, wasOff': bool, cx': int, cy': int)
    requires Tracks(c, num, wasOff, cx, cy) && Holds(vertices, c.out) && num < vertices.Length
    modifies vertices
    ensures var c' := Link(c, Pt.Pt(on, x, y));
            Tracks(c', num', wasOff', cx', cy') && Holds(vertices, c'.out)
    ensures forall q | num < q < vertices.Length :: vertices[q] == old(vertices[q])
  {
    hide Holds;
    num', wasOff', cx', cy' := num, wasOff, cx, cy;
    if !on {
      if wasOff {
        PutVertex(vertices, num, VCurve, (cx + x) / 2, (cy + y) / 2, cx, cy, c.out);
        num' := num + 1;
      }
      cx', cy', wasOff' := x, y, true;
    } else {
      if wasOff {
        PutVertex(vertices, num, VCurve, x, y, cx, cy, c.out);
      } else {
        PutVertex(vertices, num, VLine, x, y, 0, 0, c.out);
      }
      num', wasOff' := num + 1, false;
    }
  }

  /** The second pass over the array: reads raw points from `off` on and writes vertices from the
      front, never over a point it has still to read. */
  method Expand(mem: Memory, endPts: int, vertices: array<Record>, off: nat, n: nat,
                ghost points: seq<Pt>, ghost ends: seq<nat>)
    returns (num: nat)
    requires WellFormed(points, ends) && EndsAt(mem, endPts, ends)
    requires n == |points| && off == 2 * |ends| && Unread(vertices, off, points, 0)
    modifies vertices
    ensures num == |Outline(points, ends, |ends|)| && Holds(vertices, Outline(points, ends, |ends|))
  {
    hide Outline, Walk, Link, LinkAll, StartOf, Holds, Has, UShort, Progress, Starts, ContourPoints;
    num := 0;
    var i: nat, j: nat, nextMove: nat := 0, 0, 0;
    var wasOff, startOff := false, false;
    var sx, sy, cx, cy, scx, scy := 0, 0, 0, 0, 0, 0;
    while i < n
      invariant j <= |ends|
      invariant Unread(vertices, off, points, i)
      invariant j == 0 ==> i == num == nextMove == 0
      invariant j > 0 ==>
                  && nextMove == ends[j - 1] + 1
                  && Reading(vertices, points, ends, j, i, num, wasOff, cx, cy, startOff, sx, sy, scx, scy)
    {
      var r := vertices[off + i];
      if nextMove == i {
        if i != 0 {
          num := Finish(vertices, num, wasOff, startOff, sx, sy, scx, scy, cx, cy, points, ends, j);
        } else {
          EmptyOutline(vertices, points, ends);
        }
        startOff, sx, sy, scx, scy, i := BeginContour(vertices, off, num, i, cx, cy, points, ends, j);
        num, wasOff := num + 1, false;
        nextMove := 1 + UShort(mem, endPts + 2 * j);
        j := j + 1;
      } else {
        ProgressStep(points, ends, j, i);
        num, wasOff, cx, cy :=
          AddPoint(vertices, num, wasOff, cx, cy, Has(r.tag, 1), r.x, r.y, Progress(points, ends, j, i));
      }
      i := i + 1;
    }
    StartsInside(points, ends);
    num := Finish(vertices, num, wasOff, startOff, sx, sy, scx, scy, cx, cy, points, ends, j);
  }

  lemma StartsInside(points: seq<Pt>, ends: seq<nat>)
    requires WellFormed(points, ends)
    ensures forall j | 0 <= j < |ends| :: ContourStart(ends, j) < |points|
  {
    forall j | 0 <= j < |ends| ensures ContourStart(ends, j) < |points| {
      assert ContourOk(points, ends, j);
    }
  }

  lemma EmptyOutline(vertices: array<Record>, points: seq<Pt>, ends: seq<nat>)
    requires WellFormed(points, ends)
    ensures Outline(points, ends, 0) == [] && Holds(vertices, [])
  {
  }

  /** Closes contour `j - 1`, whose points have all been read. */
  method Finish(vertices: array<Record>, num: nat, wasOff: bool, startOff: bool, sx: int, sy: int,
                scx: int, scy: int, cx: int, cy: int, ghost points: seq<Pt>, ghost ends: seq<nat>, ghost j: nat)
    returns (num': nat)
    requires WellFormed(points, ends) && 1 <= j <= |ends| && vertices.Length == 2 * |ends| + |points|
    requires Reading(vertices, points, ends, j, ends[j - 1] + 1, num, wasOff, cx, cy, startOff, sx, sy, scx, scy)
    modifies vertices
    ensures num' == |Outline(points, ends, j)| && Holds(vertices, Outline(points, ends, j))
    ensures forall q | ends[j - 1] + 1 + 2 * j <= q < vertices.Length :: vertices[q] == old(vertices[q])
  {
    hide Outline, Walk, Link, LinkAll, StartOf, Holds, Progress;
    ProgressClose(points, ends, j);
    ghost var start := Pt.Pt(true, sx, sy);
    assert [] + [start] == [start] && [Pt.Pt(false, scx, scy)] + [start] == [Pt.Pt(false, scx, scy), start];
    num' := CloseShape(vertices, num, wasOff, startOff, sx, sy, scx, scy, cx, cy,
                       Progress(points, ends, j, ends[j - 1] + 1));
  }

  // ---------- The whole glyph ----------

  function GlyphEnds(mem: Memory, g: int, contours: nat): (ends: seq<nat>)
    ensures |ends| == contours
  {
    seq(contours, j requires 0 <= j < contours => UShort(mem, g + 10 + 2 * j))
  }

  /** The number of points: one more than the last contour end. */
  function PointCount(mem: Memory, g: int, contours: nat): nat
    requires contours > 0
  {
    1 + UShort(mem, g + 10 + 2 * contours - 2)
  }

  function PointData(mem: Memory, g: int, contours: nat): int {
    g + 10 + 2 * contours + 2 + UShort(mem, g + 10 + 2 * contours)
  }

  /** The points of the glyph at `g`. */
  function PointsAt(mem: Memory, g: int, contours: nat): seq<Pt>
    requires contours > 0
  {
    GlyphPoints(mem, PointData(mem, g, contours), PointCount(mem, g, contours))
  }

  predicate HasOutline(mem: Memory, g: int) { g >= 0 && Short(mem, g) > 0 }

  function GlyphOutlineAt(mem: Memory, g: int): seq<Vertex>
    requires HasOutline(mem, g)
    requires WellFormed(PointsAt(mem, g, Short(mem, g)), GlyphEnds(mem, g, Short(mem, g)))
  {
    Outline(PointsAt(mem, g, Short(mem, g)), GlyphEnds(mem, g, Short(mem, g)), Short(mem, g))
  }

  /** `stbtt__GetGlyphShapeTT` for a simple glyph whose data starts at `g`, or is missing (`g < 0`). The
      array of one record per point and two per contour holds the outline at its front. */
  method GetGlyphShape(mem: Memory, g: int) returns (vertices: array?<Record>, num: nat)
    requires g >= 0 ==> Short(mem, g) >= 0
    requires HasOutline(mem, g) ==> WellFormed(PointsAt(mem, g, Short(mem, g)), GlyphEnds(mem, g, Short(mem, g)))
    ensures !HasOutline(mem, g) ==> vertices == null && num == 0
    ensures HasOutline(mem, g) ==>
              && vertices != null && fresh(vertices)
              && vertices.Length == PointCount(mem, g, Short(mem, g)) + 2 * Short(mem, g)
              && num == |GlyphOutlineAt(mem, g)| && Holds(vertices, GlyphOutlineAt(mem, g))
  {
    hide Outline, GlyphPoints, Has, ToInt16, Holds, WellFormed, Unread;
    if g < 0 { return null, 0; }
    var contours: int := Short(mem, g);
    if contours == 0 { return null, 0; }
    var endPts := g + 10;
    var ins := UShort(mem, g + 10 + contours * 2);
    var data := g + 10 + contours * 2 + 2 + ins;
    var n := 1 + UShort(mem, endPts + contours * 2 - 2);
    var m := n + 2 * contours;
    vertices := new Record[m](_ => Record.Record(0, 0, 0, 0, 0));
    var off := m - n;
    LoadPoints(mem, data, vertices, off, n);
    num := Expand(mem, endPts, vertices, off, n, PointsAt(mem, g, contours), GlyphEnds(mem, g, contours));
  }

  /** The first pass: flags, then x coordinates, then y coordinates, at the end of the array. */
  method LoadPoints(mem: Memory, data: int, vertices: array<Record>, off: nat, n: nat)
    requires off + n == vertices.Length
    modifies vertices
    ensures Unread(vertices, off, GlyphPoints(mem, data, n), 0)
  {
    hide Flags, FlagsEnd, Position, DeltasEnd, Has, ToInt16;
    ghost var flags := Flags(mem, data, n);
    var p := LoadFlags(mem, data, vertices, off, n);
    p := LoadAxis(mem, p, X_AXIS, vertices, off, n, flags);
    p := LoadAxis(mem, p, Y_AXIS, vertices, off, n, flags);
  }

  /** Storing the outline in 16-bit coordinates loses nothing. */
  lemma {:induction false} OutlineFitsInt16(points: seq<Pt>, ends: seq<nat>, j: nat)
    requires WellFormed(points, ends) && j <= |ends|
    requires forall p | p in points :: FitsInt16(p)
    ensures forall v | v in Outline(points, ends, j) :: Stored(v) == v
  {
    hide Walk;
    if j > 0 {
      OutlineFitsInt16(points, ends, j - 1);
      var c := ContourPoints(points, ends, j - 1);
      forall p | p in c ensures FitsInt16(p) { assert p in points; }
      assert c[0] in c && (!c[0].on ==> c[1] in c);
      var ring := c[StartLength(c)..] + Closing(c);
      forall p | p in ring ensures FitsInt16(p) { assert p in c || p == StartOf(c); }
      WalkFitsInt16(ring);
    }
  }

  predicate FitsInt16(p: Pt) { -0x8000 <= p.x < 0x8000 && -0x8000 <= p.y < 0x8000 }

  lemma {:induction false} WalkFitsInt16(points: seq<Pt>)
    requires forall p | p in points :: FitsInt16(p)
    ensures var w := Walk(points);
            && (forall v | v in w.out :: Stored(v) == v)
            && (w.pending.Some? ==> FitsInt16(w.pending.value))
  {
    if points != [] {
      var front := points[..|points| - 1];
      forall p | p in front ensures FitsInt16(p) { assert p in points; }
      WalkFitsInt16(front);
      assert points[|points| - 1] in points;
    }
  }
}
