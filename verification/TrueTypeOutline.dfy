/** Meaning of a simple TrueType glyph: run-length coded flags, delta coded coordinates, and contours
    of on-curve and off-curve points. */
module TrueTypeOutline {
  import opened MachineInts
  import opened FontMemory
  import opened GlyphOutline
  import opened Wrappers

  /** Whether the flag bit of weight `mask` is set. */
  predicate Has(flags: byte, mask: nat)
    requires mask > 0
  {
    flags / mask % 2 == 1
  }

  // ---------- Flags ----------

  /** How many of `n` wanted flags the record at `p` provides. */
  function RunLength(mem: Memory, p: int, n: nat): (r: nat)
    requires n > 0
    ensures 1 <= r <= n
  {
    if Has(mem(p), 8) then Min(1 + mem(p + 1), n) else 1
  }

  function AfterRun(mem: Memory, p: int): int { if Has(mem(p), 8) then p + 2 else p + 1 }

  function Repeat(flag: byte, n: nat): (s: seq<byte>)
    ensures |s| == n
  {
    seq(n, _ => flag)
  }

  /** The `n` flags encoded from `p` on. */
  function Flags(mem: Memory, p: int, n: nat): (s: seq<byte>)
    ensures |s| == n
    decreases n
  {
    if n == 0 then []
    else
      var r := RunLength(mem, p, n);
      Repeat(mem(p), r) + Flags(mem, AfterRun(mem, p), n - r)
  }

  function FlagsEnd(mem: Memory, p: int, n: nat): int
    decreases n
  {
    if n == 0 then p else FlagsEnd(mem, AfterRun(mem, p), n - RunLength(mem, p, n))
  }

  // ---------- Coordinates ----------

  /** One axis: the flag bits that say the delta is one byte, and that it is positive or zero. */
  datatype Axis = Axis(shortBit: nat, sameBit: nat)

  const X_AXIS := Axis.Axis(2, 16)
  const Y_AXIS := Axis.Axis(4, 32)

  predicate IsAxis(axis: Axis) { axis == X_AXIS || axis == Y_AXIS }

  function Delta(mem: Memory, p: int, axis: Axis, flag: byte): int
    requires IsAxis(axis)
  {
    if Has(flag, axis.shortBit) then (if Has(flag, axis.sameBit) then mem(p) else 0 - mem(p))
    else if Has(flag, axis.sameBit) then 0
    else Short(mem, p)
  }

  function DeltaSize(axis: Axis, flag: byte): nat
    requires IsAxis(axis)
  {
    if Has(flag, axis.shortBit) then 1 else if Has(flag, axis.sameBit) then 0 else 2
  }

  /** The address after the deltas of `flags`, which start at `p`. */
  function DeltasEnd(mem: Memory, p: int, axis: Axis, flags: seq<byte>): int
    requires IsAxis(axis)
  {
    if flags == [] then p
    else DeltasEnd(mem, p, axis, flags[..|flags| - 1]) + DeltaSize(axis, flags[|flags| - 1])
  }

  /** The sum of the deltas of `flags`, which start at `p`. */
  function Position(mem: Memory, p: int, axis: Axis, flags: seq<byte>): int
    requires IsAxis(axis)
  {
    if flags == [] then 0
    else
      var front := flags[..|flags| - 1];
      var flag := flags[|flags| - 1];
      Position(mem, p, axis, front) + Delta(mem, DeltasEnd(mem, p, axis, front), axis, flag)
  }

  lemma EmptyPosition(mem: Memory, p: int, axis: Axis, flags: seq<byte>)
    requires IsAxis(axis)
    ensures DeltasEnd(mem, p, axis, flags[..0]) == p && Position(mem, p, axis, flags[..0]) == 0
  {
  }

  lemma NextPosition(mem: Memory, p: int, axis: Axis, flags: seq<byte>, k: nat)
    requires IsAxis(axis) && k < |flags|
    ensures var end := DeltasEnd(mem, p, axis, flags[..k]);
            && DeltasEnd(mem, p, axis, flags[..k + 1]) == end + DeltaSize(axis, flags[k])
            && Position(mem, p, axis, flags[..k + 1])
               == Position(mem, p, axis, flags[..k]) + Delta(mem, end, axis, flags[k])
  {
    hide Delta, DeltaSize;
    assert flags[..k + 1][..k] == flags[..k];
  }

  // ---------- Points ----------

  datatype Pt = Pt(on: bool, x: int, y: int)

  function GlyphPoints(mem: Memory, p: int, n: nat): (s: seq<Pt>)
    ensures |s| == n
  {
    var flags := Flags(mem, p, n);
    var xs := FlagsEnd(mem, p, n);
    var ys := DeltasEnd(mem, xs, X_AXIS, flags);
    seq(n, i requires 0 <= i < n =>
      Pt.Pt(Has(flags[i], 1),
            ToInt16(Position(mem, xs, X_AXIS, flags[..i + 1])),
            ToInt16(Position(mem, ys, Y_AXIS, flags[..i + 1]))))
  }

  // ---------- Contours ----------

  function Midpoint(a: Pt, b: Pt): Pt { Pt.Pt(true, (a.x + b.x) / 2, (a.y + b.y) / 2) }

  function MoveTo(p: Pt): Vertex { Vertex(VMove, p.x, p.y, 0, 0, 0, 0) }

  function LineTo(p: Pt): Vertex { Vertex(VLine, p.x, p.y, 0, 0, 0, 0) }

  function CurveTo(p: Pt, control: Pt): Vertex { Vertex(VCurve, p.x, p.y, control.x, control.y, 0, 0) }

  /** An open chain of segments: the off-curve point still waiting for its end point, if any. */
  datatype Chain = Chain(pending: Option<Pt>, out: seq<Vertex>)

  /** Two off-curve points in a row have an implied on-curve midpoint between them. */
  function Link(c: Chain, p: Pt): Chain {
    match c.pending
    case None => if p.on then Chain.Chain(None, c.out + [LineTo(p)]) else c.(pending := Some(p))
    case Some(q) =>
      if p.on then Chain.Chain(None, c.out + [CurveTo(p, q)])
      else Chain.Chain(Some(p), c.out + [CurveTo(Midpoint(q, p), q)])
  }

  function Walk(points: seq<Pt>): (c: Chain)
    ensures |c.out| + (if c.pending.Some? then 1 else 0) <= |points|
  {
    if points == [] then Chain.Chain(None, [])
    else Link(Walk(points[..|points| - 1]), points[|points| - 1])
  }

  /** A contour that starts off-curve has a second point to find a start with. */
  predicate ValidContour(c: seq<Pt>) { c != [] && (c[0].on || |c| >= 2) }

  function StartOf(c: seq<Pt>): (p: Pt)
    requires ValidContour(c)
    ensures p.on
  {
    if c[0].on then c[0] else if c[1].on then c[1] else Midpoint(c[0], c[1])
  }

  /** How many leading points are used up by the start. */
  function StartLength(c: seq<Pt>): (k: nat)
    requires ValidContour(c)
    ensures 1 <= k <= |c|
  {
    if !c[0].on && c[1].on then 2 else 1
  }

  /** The points that lead back to the start. */
  function Closing(c: seq<Pt>): seq<Pt>
    requires ValidContour(c)
  {
    (if c[0].on then [] else [c[0]]) + [StartOf(c)]
  }

  /** A contour: a move to an on-curve start, then once around the cyclic list of points. */
  function Contour(c: seq<Pt>): (vs: seq<Vertex>)
    requires ValidContour(c)
    ensures |vs| <= |c| + 2
  {
    [MoveTo(StartOf(c))] + Walk(c[StartLength(c)..] + Closing(c)).out
  }

  // ---------- The glyph ----------

  function ContourStart(ends: seq<nat>, j: nat): nat
    requires j <= |ends|
  {
    if j == 0 then 0 else ends[j - 1] + 1
  }

  /** Contour `j` is not empty and can be started. */
  predicate ContourOk(points: seq<Pt>, ends: seq<nat>, j: nat)
    requires j < |ends|
  {
    && ContourStart(ends, j) <= ends[j] < |points|
    && ValidContour(points[ContourStart(ends, j)..ends[j] + 1])
  }

  /** The contour ends increase strictly and partition the points. */
  predicate WellFormed(points: seq<Pt>, ends: seq<nat>) {
    && ends != []
    && ContourStart(ends, |ends|) == |points|
    && forall j | 0 <= j < |ends| :: ContourOk(points, ends, j)
  }

  function ContourPoints(points: seq<Pt>, ends: seq<nat>, j: nat): (c: seq<Pt>)
    requires WellFormed(points, ends) && j < |ends|
    ensures ValidContour(c) && |c| == ends[j] + 1 - ContourStart(ends, j)
    ensures ends[j] < |points| && forall k | 0 <= k < |c| :: c[k] == points[ContourStart(ends, j) + k]
  {
    assert ContourOk(points, ends, j);
    points[ContourStart(ends, j)..ends[j] + 1]
  }

  /** The outline of the first `j` contours. */
  function Outline(points: seq<Pt>, ends: seq<nat>, j: nat): (vs: seq<Vertex>)
    requires WellFormed(points, ends) && j <= |ends|
    ensures |vs| <= ContourStart(ends, j) + 2 * j
  {
    if j == 0 then [] else Outline(points, ends, j - 1) + Contour(ContourPoints(points, ends, j - 1))
  }

  // ---------- What a contour looks like ----------

  function EndPoint(v: Vertex): (int, int) { (v.x, v.y) }

  lemma WalkAppend(points: seq<Pt>, p: Pt)
    ensures Walk(points + [p]) == Link(Walk(points), p)
  {
    assert (points + [p])[..|points|] == points;
  }

  /** Every contour starts with its only move and ends where it started. */
  lemma ContourIsClosed(c: seq<Pt>)
    requires ValidContour(c)
    ensures var vs := Contour(c);
            && |vs| >= 2
            && vs[0] == MoveTo(StartOf(c))
            && EndPoint(vs[|vs| - 1]) == EndPoint(vs[0])
            && forall i | 0 < i < |vs| :: !vs[i].kind.VMove?
  {
    var ring := c[StartLength(c)..] + Closing(c);
    var front := ring[..|ring| - 1];
    assert ring[|ring| - 1] == StartOf(c);
    WalkHasNoMoves(ring);
  }

  lemma {:induction false} WalkHasNoMoves(points: seq<Pt>)
    ensures forall v | v in Walk(points).out :: !v.kind.VMove?
  {
    if points != [] { WalkHasNoMoves(points[..|points| - 1]); }
  }

  function OffPoints(points: seq<Pt>): seq<(int, int)> {
    if points == [] then []
    else
      var p := points[|points| - 1];
      OffPoints(points[..|points| - 1]) + if p.on then [] else [(p.x, p.y)]
  }

  function Controls(vs: seq<Vertex>): seq<(int, int)> {
    if vs == [] then []
    else
      var v := vs[|vs| - 1];
      Controls(vs[..|vs| - 1]) + if v.kind.VCurve? then [(v.cx, v.cy)] else []
  }

  /** The off-curve points are the control points of the curves, each used once and in order. */
  lemma {:induction false} WalkUsesOffPoints(points: seq<Pt>)
    ensures var c := Walk(points);
            Controls(c.out) + (if c.pending.Some? then [(c.pending.value.x, c.pending.value.y)] else [])
            == OffPoints(points)
  {
    if points != [] {
      var front := points[..|points| - 1];
      WalkUsesOffPoints(front);
      var w := Walk(front);
      forall v ensures Controls(w.out + [v]) == Controls(w.out) + if v.kind.VCurve? then [(v.cx, v.cy)] else [] {
        assert (w.out + [v])[..|w.out|] == w.out;
      }
    }
  }

  lemma ContourUsesOffPoints(c: seq<Pt>)
    requires ValidContour(c)
    ensures Controls(Contour(c)) == OffPoints(c[StartLength(c)..] + Closing(c))
  {
    var ring := c[StartLength(c)..] + Closing(c);
    WalkUsesOffPoints(ring);
    assert ring[|ring| - 1].on;
    ControlsSkipMove(MoveTo(StartOf(c)), Walk(ring).out);
  }

  lemma {:induction false} ControlsSkipMove(move: Vertex, vs: seq<Vertex>)
    requires move.kind.VMove?
    ensures Controls([move] + vs) == Controls(vs)
  {
    if vs != [] {
      ControlsSkipMove(move, vs[..|vs| - 1]);
      assert ([move] + vs)[..|vs|] == [move] + vs[..|vs| - 1];
    } else {
      assert [move] + vs == [move] && [move][..0] == [];
    }
  }

  /** One vertex more than points is enough for a contour. */
  lemma ContourSize(c: seq<Pt>)
    requires ValidContour(c)
    ensures |Contour(c)| <= |c| + 1
  {
    var ring := c[StartLength(c)..] + Closing(c);
    if !c[0].on && !c[1].on {
      assert ring[0] == c[1];
      WalkFromOff(ring);
    }
  }

  lemma {:induction false} WalkFromOff(points: seq<Pt>)
    requires points != [] && !points[0].on
    ensures |Walk(points).out| < |points|
  {
    if |points| > 1 { WalkFromOff(points[..|points| - 1]); }
    else { assert points[..0] == []; }
  }

  /** The whole outline needs at most one vertex per point and one per contour; the array has two. */
  lemma {:induction false} OutlineSize(points: seq<Pt>, ends: seq<nat>, j: nat)
    requires WellFormed(points, ends) && j <= |ends|
    ensures |Outline(points, ends, j)| <= ContourStart(ends, j) + j
  {
    if j > 0 {
      OutlineSize(points, ends, j - 1);
      ContourSize(ContourPoints(points, ends, j - 1));
    }
  }

  // ---------- Encoded points are read back ----------

  function Xs(points: seq<Pt>): (s: seq<int>)
    ensures |s| == |points|
  {
    seq(|points|, i requires 0 <= i < |points| => points[i].x)
  }

  function Ys(points: seq<Pt>): (s: seq<int>)
    ensures |s| == |points|
  {
    seq(|points|, i requires 0 <= i < |points| => points[i].y)
  }

  /** A flag byte for one point, or with the repeat bit for `extra` more points. */
  datatype Run = Run(flag: byte, extra: byte)

  predicate AreRuns(runs: seq<Run>) {
    forall i | 0 <= i < |runs| :: Has(runs[i].flag, 8) || runs[i].extra == 0
  }

  function FirstBytes(r: Run): seq<byte> { if Has(r.flag, 8) then [r.flag, r.extra] else [r.flag] }

  function RunBytes(runs: seq<Run>): seq<byte> {
    if runs == [] then [] else FirstBytes(runs[0]) + RunBytes(runs[1..])
  }

  /** The flags of all points. */
  function Expanded(runs: seq<Run>): seq<byte> {
    if runs == [] then [] else Repeat(runs[0].flag, 1 + runs[0].extra) + Expanded(runs[1..])
  }

  /** The coordinate before the last one. */
  function Previous(coords: seq<int>): int {
    if |coords| < 2 then 0 else coords[|coords| - 2]
  }

  function Last(coords: seq<int>): int {
    if coords == [] then 0 else coords[|coords| - 1]
  }

  /** Whether a difference can be written in the form that a flag says: one byte with a sign bit, nothing,
      or two bytes. */
  predicate CanWrite(axis: Axis, flag: byte, d: int)
    requires IsAxis(axis)
  {
    if Has(flag, axis.shortBit) then if Has(flag, axis.sameBit) then 0 <= d < 0x100 else -0x100 < d <= 0
    else Has(flag, axis.sameBit) ==> d == 0
  }

  function DeltaBytes(axis: Axis, flag: byte, d: int): (s: seq<byte>)
    requires IsAxis(axis) && CanWrite(axis, flag, d)
    ensures |s| == DeltaSize(axis, flag)
  {
    if Has(flag, axis.shortBit) then [if d < 0 then -d else d]
    else if Has(flag, axis.sameBit) then []
    else [d % 0x1_0000 / 0x100, d % 0x1_0000 % 0x100]
  }

  /** Every coordinate can be written as its flag says. */
  predicate CanWriteAll(axis: Axis, flags: seq<byte>, coords: seq<int>)
    requires IsAxis(axis) && |flags| == |coords|
  {
    flags == [] ||
    var n := |flags| - 1;
    CanWriteAll(axis, flags[..n], coords[..n]) && CanWrite(axis, flags[n], coords[n] - Previous(coords))
  }

  function AxisBytes(axis: Axis, flags: seq<byte>, coords: seq<int>): seq<byte>
    requires IsAxis(axis) && |flags| == |coords| && CanWriteAll(axis, flags, coords)
  {
    if flags == [] then []
    else
      var n := |flags| - 1;
      AxisBytes(axis, flags[..n], coords[..n]) + DeltaBytes(axis, flags[n], coords[n] - Previous(coords))
  }

  /** A choice of flags that describes the points. */
  predicate Describes(runs: seq<Run>, points: seq<Pt>) {
    && AreRuns(runs)
    && var flags := Expanded(runs);
       && |flags| == |points|
       && (forall i | 0 <= i < |points| :: Has(flags[i], 1) == points[i].on)
       && CanWriteAll(X_AXIS, flags, Xs(points)) && CanWriteAll(Y_AXIS, flags, Ys(points))
  }

  /** Flags, then horizontal, then vertical differences. */
  function PointBytes(runs: seq<Run>, points: seq<Pt>): seq<byte>
    requires Describes(runs, points)
  {
    var flags := Expanded(runs);
    RunBytes(runs) + AxisBytes(X_AXIS, flags, Xs(points)) + AxisBytes(Y_AXIS, flags, Ys(points))
  }

  ghost predicate HoldsBytes(mem: Memory, p: int, bytes: seq<byte>) {
    forall k | 0 <= k < |bytes| :: mem(p + k) == bytes[k]
  }

  lemma BytesParts(mem: Memory, p: int, a: seq<byte>, b: seq<byte>)
    requires HoldsBytes(mem, p, a + b)
    ensures HoldsBytes(mem, p, a) && HoldsBytes(mem, p + |a|, b)
  {
    forall k | 0 <= k < |a| ensures mem(p + k) == a[k] { assert (a + b)[k] == a[k]; }
    forall k | 0 <= k < |b| ensures mem(p + |a| + k) == b[k] {
      assert (a + b)[|a| + k] == b[k] && p + (|a| + k) == p + |a| + k;
    }
  }

  lemma FirstRun(mem: Memory, p: int, r: Run, n: nat)
    requires (Has(r.flag, 8) || r.extra == 0) && HoldsBytes(mem, p, FirstBytes(r)) && 1 + r.extra <= n
    ensures mem(p) == r.flag && RunLength(mem, p, n) == 1 + r.extra && AfterRun(mem, p) == p + |FirstBytes(r)|
  {
    hide Has;
    var first := FirstBytes(r);
    assert mem(p) == mem(p + 0) == first[0] == r.flag;
    if Has(r.flag, 8) { assert first[1] == r.extra && mem(p + 1) == first[1]; }
  }

  lemma FlagsStep(mem: Memory, p: int, n: nat)
    requires n > 0
    ensures var r := RunLength(mem, p, n);
            && Flags(mem, p, n) == Repeat(mem(p), r) + Flags(mem, AfterRun(mem, p), n - r)
            && FlagsEnd(mem, p, n) == FlagsEnd(mem, AfterRun(mem, p), n - r)
  {
    hide RunLength, AfterRun, Repeat;
  }

  lemma RunsStep(runs: seq<Run>)
    requires runs != []
    ensures RunBytes(runs) == FirstBytes(runs[0]) + RunBytes(runs[1..])
    ensures Expanded(runs) == Repeat(runs[0].flag, 1 + runs[0].extra) + Expanded(runs[1..])
  {
    hide Has, Repeat;
  }

  lemma FirstIsRun(runs: seq<Run>)
    requires AreRuns(runs) && runs != []
    ensures (Has(runs[0].flag, 8) || runs[0].extra == 0) && AreRuns(runs[1..])
  {
    hide Has;
  }

  /** The decoder expands the runs. */
  lemma {:induction false} RunsDecode(mem: Memory, p: int, runs: seq<Run>)
    requires AreRuns(runs) && HoldsBytes(mem, p, RunBytes(runs))
    ensures var n := |Expanded(runs)|;
            Flags(mem, p, n) == Expanded(runs) && FlagsEnd(mem, p, n) == p + |RunBytes(runs)|
    decreases |runs|
  {
    if runs != [] {
      var r, rest, n := runs[0], runs[1..], |Expanded(runs)|;
      FirstIsRun(runs);
      hide *;
      RunsStep(runs);
      BytesParts(mem, p, FirstBytes(r), RunBytes(rest));
      FirstRun(mem, p, r, n);
      FlagsStep(mem, p, n);
      RunsDecode(mem, p + |FirstBytes(r)|, rest);
    }
  }

  predicate Congruent(a: int, b: int) { (a - b) % 0x1_0000 == 0 }

  /** A written difference is read back modulo 2^16. */
  lemma DeltaRoundTrip(mem: Memory, p: int, axis: Axis, flag: byte, d: int)
    requires IsAxis(axis) && CanWrite(axis, flag, d) && HoldsBytes(mem, p, DeltaBytes(axis, flag, d))
    ensures Congruent(Delta(mem, p, axis, flag), d)
  {
    hide Has;
    var bytes := DeltaBytes(axis, flag, d);
    if Has(flag, axis.shortBit) {
      assert mem(p) == mem(p + 0) == bytes[0];
    } else if !Has(flag, axis.sameBit) {
      assert mem(p) == mem(p + 0) == bytes[0] && mem(p + 1) == bytes[1];
      SplitWord(d % 0x1_0000);
      SignedIsCongruent(d % 0x1_0000, d);
    }
  }

  lemma SplitWord(w: nat)
    ensures w / 0x100 * 0x100 + w % 0x100 == w
  {
  }

  lemma SignedIsCongruent(w: int, d: int)
    requires w == d % 0x1_0000
    ensures Congruent(ToInt16(w), d)
  {
  }

  lemma AddCongruent(a: int, a': int, b: int, b': int)
    requires Congruent(a, a') && Congruent(b, b')
    ensures Congruent(a + b, a' + b')
  {
  }

  /** The deltas of an axis add up to its last coordinate modulo 2^16. */
  lemma {:induction false} AxisDecodes(mem: Memory, p: int, axis: Axis, flags: seq<byte>, coords: seq<int>)
    requires IsAxis(axis) && |flags| == |coords| && CanWriteAll(axis, flags, coords)
    requires HoldsBytes(mem, p, AxisBytes(axis, flags, coords))
    ensures DeltasEnd(mem, p, axis, flags) == p + |AxisBytes(axis, flags, coords)|
    ensures Congruent(Position(mem, p, axis, flags), Last(coords))
    decreases |flags|
  {
    hide Delta, DeltaSize, DeltaBytes, CanWrite, Congruent;
    if flags == [] {
      ZeroIsCongruent();
    } else {
      var n := |flags| - 1;
      var front, d := AxisBytes(axis, flags[..n], coords[..n]), coords[n] - Previous(coords);
      BytesParts(mem, p, front, DeltaBytes(axis, flags[n], d));
      AxisDecodes(mem, p, axis, flags[..n], coords[..n]);
      DeltaRoundTrip(mem, p + |front|, axis, flags[n], d);
      AddCongruent(Position(mem, p, axis, flags[..n]), Last(coords[..n]), Delta(mem, p + |front|, axis, flags[n]), d);
    }
  }

  lemma ZeroIsCongruent()
    ensures Congruent(0, 0)
  {
  }

  /** What is written for the first k points comes first. */
  lemma {:induction false} AxisPrefix(axis: Axis, flags: seq<byte>, coords: seq<int>, k: nat)
    requires IsAxis(axis) && k <= |flags| == |coords| && CanWriteAll(axis, flags, coords)
    ensures CanWriteAll(axis, flags[..k], coords[..k])
    ensures AxisBytes(axis, flags[..k], coords[..k]) <= AxisBytes(axis, flags, coords)
    decreases |flags|
  {
    hide DeltaBytes, CanWrite;
    if k < |flags| {
      var n := |flags| - 1;
      AxisPrefix(axis, flags[..n], coords[..n], k);
      assert flags[..n][..k] == flags[..k] && coords[..n][..k] == coords[..k];
    } else {
      assert flags[..k] == flags && coords[..k] == coords;
    }
  }

  lemma Int16Congruent(v: int, w: int)
    requires -0x8000 <= w < 0x8000 && Congruent(v, w)
    ensures ToInt16(v) == w
  {
  }

  /** Along one axis, every coordinate is read back. */
  lemma AxisRoundTrip(mem: Memory, p: int, axis: Axis, flags: seq<byte>, coords: seq<int>)
    requires IsAxis(axis) && |flags| == |coords| && CanWriteAll(axis, flags, coords)
    requires forall i | 0 <= i < |coords| :: -0x8000 <= coords[i] < 0x8000
    requires HoldsBytes(mem, p, AxisBytes(axis, flags, coords))
    ensures DeltasEnd(mem, p, axis, flags) == p + |AxisBytes(axis, flags, coords)|
    ensures forall i | 0 <= i < |flags| :: ToInt16(Position(mem, p, axis, flags[..i + 1])) == coords[i]
  {
    hide Position, DeltasEnd, ToInt16, AxisBytes, CanWriteAll, Congruent;
    AxisDecodes(mem, p, axis, flags, coords);
    forall i | 0 <= i < |flags|
      ensures ToInt16(Position(mem, p, axis, flags[..i + 1])) == coords[i]
    {
      AxisPrefix(axis, flags, coords, i + 1);
      AxisDecodes(mem, p, axis, flags[..i + 1], coords[..i + 1]);
      Int16Congruent(Position(mem, p, axis, flags[..i + 1]), coords[i]);
    }
  }

  /** Every list of points with 16-bit coordinates, in any encoding that describes it, is read back. */
  lemma PointsRoundTrip(mem: Memory, p: int, runs: seq<Run>, points: seq<Pt>)
    requires Describes(runs, points) && HoldsBytes(mem, p, PointBytes(runs, points))
    requires forall q | q in points :: -0x8000 <= q.x < 0x8000 && -0x8000 <= q.y < 0x8000
    ensures GlyphPoints(mem, p, |points|) == points
  {
    hide Position, DeltasEnd, Flags, FlagsEnd, ToInt16, Has, HoldsBytes, CanWriteAll, AxisBytes, RunBytes, Expanded;
    var n, flags, xs, ys := |points|, Expanded(runs), Xs(points), Ys(points);
    var a, b, c := RunBytes(runs), AxisBytes(X_AXIS, flags, xs), AxisBytes(Y_AXIS, flags, ys);
    BytesParts(mem, p, a + b, c);
    BytesParts(mem, p, a, b);
    RunsDecode(mem, p, runs);
    assert forall i | 0 <= i < n :: points[i] in points;
    AxisRoundTrip(mem, p + |a|, X_AXIS, flags, xs);
    AxisRoundTrip(mem, p + |a| + |b|, Y_AXIS, flags, ys);
    forall i | 0 <= i < n ensures GlyphPoints(mem, p, n)[i] == points[i] {
      assert xs[i] == points[i].x && ys[i] == points[i].y;
    }
  }

  // ---------- There is always an encoding ----------

  /** One flag byte for every point, and two bytes for every difference. */
  function PlainRuns(points: seq<Pt>): (runs: seq<Run>)
    ensures |runs| == |points|
  {
    seq(|points|, i requires 0 <= i < |points| => Run(if points[i].on then 1 else 0, 0))
  }

  lemma {:induction false} PlainFlags(points: seq<Pt>)
    ensures |Expanded(PlainRuns(points))| == |points|
    ensures forall i | 0 <= i < |points| :: Expanded(PlainRuns(points))[i] == if points[i].on then 1 else 0
  {
    if points != [] {
      PlainFlags(points[1..]);
      assert PlainRuns(points)[1..] == PlainRuns(points[1..]);
    }
  }

  lemma {:induction false} PlainCanWrite(axis: Axis, flags: seq<byte>, coords: seq<int>)
    requires IsAxis(axis) && |flags| == |coords|
    requires forall i | 0 <= i < |flags| :: flags[i] == 0 || flags[i] == 1
    ensures CanWriteAll(axis, flags, coords)
    decreases |flags|
  {
    if flags != [] {
      var n := |flags| - 1;
      PlainCanWrite(axis, flags[..n], coords[..n]);
    }
  }

  lemma PlainRunsDescribe(points: seq<Pt>)
    ensures Describes(PlainRuns(points), points)
  {
    PlainFlags(points);
    hide CanWriteAll, Expanded;
    PlainCanWrite(X_AXIS, Expanded(PlainRuns(points)), Xs(points));
    PlainCanWrite(Y_AXIS, Expanded(PlainRuns(points)), Ys(points));
  }
}
