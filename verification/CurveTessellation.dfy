/** Recursive subdivision of quadratic Bezier curves, over the reals. */
module CurveTessellation {
  import opened MachineInts

  datatype Pt = Pt(x: real, y: real)

  function Mid(a: Pt, b: Pt): Pt { Pt.Pt((a.x + b.x) / 2.0, (a.y + b.y) / 2.0) }

  function Bez(a: real, b: real, c: real, t: real): real {
    a + 2.0 * (b - a) * t + (a - 2.0 * b + c) * t * t
  }

  /** The quadratic Bezier curve with control points p0, p1, p2. */
  function Curve(p0: Pt, p1: Pt, p2: Pt, t: real): Pt {
    Pt.Pt(Bez(p0.x, p1.x, p2.x, t), Bez(p0.y, p1.y, p2.y, t))
  }

  /** The control polygon form is the textbook one. */
  lemma BezIsBernstein(a: real, b: real, c: real, t: real)
    ensures Bez(a, b, c, t) == (1.0 - t) * (1.0 - t) * a + 2.0 * (1.0 - t) * t * b + t * t * c
  {
  }

  /** The point the code splits at: the curve at 1/2. */
  function Middle(p0: Pt, p1: Pt, p2: Pt): Pt {
    Pt.Pt((p0.x + 2.0 * p1.x + p2.x) / 4.0, (p0.y + 2.0 * p1.y + p2.y) / 4.0)
  }

  /** Along one axis, the middle of the chord minus the middle of the curve. */
  function Gap(a: real, b: real, c: real): real { (a + c) / 2.0 - (a + 2.0 * b + c) / 4.0 }

  /** Squared distance between the middle of the curve and the middle of its chord. */
  function Deviation(p0: Pt, p1: Pt, p2: Pt): real {
    var dx := Gap(p0.x, p1.x, p2.x);
    var dy := Gap(p0.y, p1.y, p2.y);
    dx * dx + dy * dy
  }

  const MAX_DEPTH := 16

  /** The points emitted for one curve at recursion depth `n`. */
  function Tess(p0: Pt, p1: Pt, p2: Pt, flat2: real, n: nat): seq<Pt>
    decreases MAX_DEPTH + 1 - n
  {
    if n > MAX_DEPTH then []
    else if Deviation(p0, p1, p2) > flat2 then
      var m := Middle(p0, p1, p2);
      Tess(p0, Mid(p0, p1), m, flat2, n + 1) + Tess(m, Mid(p1, p2), p2, flat2, n + 1)
    else [p2]
  }

  /** `stbtt__tesselate_curve`: counts the points and, once there is an array, stores them. */
  method TesselateCurve(points: array?<Pt>, num: nat, p0: Pt, p1: Pt, p2: Pt, flat2: real, n: nat)
    returns (num': nat)
    requires points != null ==> num + |Tess(p0, p1, p2, flat2, n)| <= points.Length
    modifies points
    ensures num' == num + |Tess(p0, p1, p2, flat2, n)|
    ensures points != null ==> points[..num'] == old(points[..num]) + Tess(p0, p1, p2, flat2, n)
    decreases MAX_DEPTH + 1 - n
  {
    num' := num;
    var m := Middle(p0, p1, p2);
    if n > MAX_DEPTH { return; }
    if Deviation(p0, p1, p2) > flat2 {
      num' := TesselateCurve(points, num', p0, Mid(p0, p1), m, flat2, n + 1);
      num' := TesselateCurve(points, num', m, Mid(p1, p2), p2, flat2, n + 1);
    } else {
      if points != null { points[num'] := p2; }
      num' := num' + 1;
    }
  }

  // ---------- Subdivision is uniform ----------

  function Pow16(k: nat): (r: real)
    ensures r > 0.0
  {
    if k == 0 then 1.0 else 16.0 * Pow16(k - 1)
  }

  /** The first level below `cap` at which a deviation that shrinks to a sixteenth per level passes;
      `cap` when there is none. */
  function Levels(deviation: real, flat2: real, cap: nat): (k: nat)
    ensures k <= cap
    decreases cap
  {
    if cap == 0 || deviation <= flat2 then 0 else 1 + Levels(deviation / 16.0, flat2, cap - 1)
  }

  /** The parameter of sample `i` when the curve is cut into 2^k equal parts. */
  function Sample(i: nat, k: nat): real { i as real / Pow2(k) as real }

  lemma HalvesDeviation(p0: Pt, p1: Pt, p2: Pt)
    ensures var m := Middle(p0, p1, p2);
            && Deviation(p0, Mid(p0, p1), m) == Deviation(p0, p1, p2) / 16.0
            && Deviation(m, Mid(p1, p2), p2) == Deviation(p0, p1, p2) / 16.0
  {
    HalvesGap(p0.x, p1.x, p2.x);
    HalvesGap(p0.y, p1.y, p2.y);
  }

  lemma HalvesGap(a: real, b: real, c: real)
    ensures var m := (a + 2.0 * b + c) / 4.0;
            var left, right, whole := Gap(a, (a + b) / 2.0, m), Gap(m, (b + c) / 2.0, c), Gap(a, b, c);
            left * left == whole * whole / 16.0 && right * right == whole * whole / 16.0
  {
    var m := (a + 2.0 * b + c) / 4.0;
    var g := Gap(a, b, c);
    assert Gap(a, (a + b) / 2.0, m) == g / 4.0 && Gap(m, (b + c) / 2.0, c) == g / 4.0;
    assert (g / 4.0) * (g / 4.0) == g * g / 16.0;
  }

  /** The halves of the curve are the curve on [0, 1/2] and on [1/2, 1]. */
  lemma HalvesCurve(p0: Pt, p1: Pt, p2: Pt, t: real)
    ensures var m := Middle(p0, p1, p2);
            && Curve(p0, Mid(p0, p1), m, t) == Curve(p0, p1, p2, t / 2.0)
            && Curve(m, Mid(p1, p2), p2, t) == Curve(p0, p1, p2, (1.0 + t) / 2.0)
  {
    HalvesBez(p0.x, p1.x, p2.x, t);
    HalvesBez(p0.y, p1.y, p2.y, t);
  }

  lemma HalvesBez(a: real, b: real, c: real, t: real)
    ensures var m := (a + 2.0 * b + c) / 4.0;
            && Bez(a, (a + b) / 2.0, m, t) == Bez(a, b, c, t / 2.0)
            && Bez(m, (b + c) / 2.0, c, t) == Bez(a, b, c, (1.0 + t) / 2.0)
  {
    var s, d := (1.0 + t) / 2.0, a - 2.0 * b + c;
    var m := (a + 2.0 * b + c) / 4.0;
    assert d * s * s == d / 4.0 + d * t / 2.0 + (d / 4.0) * t * t;
    assert 2.0 * (b - a) * s == (b - a) + (b - a) * t;
    var e, f := m - 2.0 * ((b + c) / 2.0) + c, 2.0 * ((b + c) / 2.0 - m);
    assert e == d / 4.0 && f == (b - a) + d / 2.0;
    assert e * t * t == (d / 4.0) * t * t && f * t == (b - a) * t + d * t / 2.0;
    assert m == a + (b - a) + d / 4.0;
    assert Bez(m, (b + c) / 2.0, c, t) == m + f * t + e * t * t;
    assert Bez(a, b, c, s) == a + 2.0 * (b - a) * s + d * s * s;
  }

  lemma SampleHalves(i: nat, k: nat)
    ensures Sample(i, k + 1) == Sample(i, k) / 2.0
    ensures Sample(Pow2(k) + i, k + 1) == (1.0 + Sample(i, k)) / 2.0
  {
    var p, x := Pow2(k) as real, i as real;
    assert Pow2(k + 1) as real == 2.0 * p;
    HalveQuotient(x, p);
    assert (Pow2(k) + i) as real == p + x;
    QuotientOf(p + x, 1.0 + x / p, p);
    HalveQuotient(p + x, p);
  }

  lemma QuotientOf(y: real, q: real, p: real)
    requires p > 0.0 && y == q * p
    ensures y / p == q
  {
  }

  lemma HalveQuotient(x: real, p: real)
    requires p > 0.0
    ensures x / (2.0 * p) == x / p / 2.0
  {
    var q := x / p;
    assert x == q * p == (q / 2.0) * (2.0 * p);
  }

  /** `points` are the curve at the ends of its 2^k equal parts. */
  ghost predicate AreSamples(points: seq<Pt>, p0: Pt, p1: Pt, p2: Pt, k: nat) {
    && |points| == Pow2(k)
    && forall i | 0 <= i < |points| :: points[i] == Curve(p0, p1, p2, Sample(i + 1, k))
  }

  lemma SamplesOfHalves(left: seq<Pt>, right: seq<Pt>, p0: Pt, p1: Pt, p2: Pt, k: nat)
    requires var m := Middle(p0, p1, p2);
             AreSamples(left, p0, Mid(p0, p1), m, k) && AreSamples(right, m, Mid(p1, p2), p2, k)
    ensures AreSamples(left + right, p0, p1, p2, k + 1)
  {
    hide Curve, Sample, Middle;
    forall i | 0 <= i < Pow2(k + 1)
      ensures (left + right)[i] == Curve(p0, p1, p2, Sample(i + 1, k + 1))
    {
      if i < Pow2(k) {
        SampleHalves(i + 1, k);
        HalvesCurve(p0, p1, p2, Sample(i + 1, k));
      } else {
        SampleHalves(i + 1 - Pow2(k), k);
        HalvesCurve(p0, p1, p2, Sample(i + 1 - Pow2(k), k));
      }
    }
  }

  /** Adaptive subdivision of a quadratic is uniform: with k levels it emits the curve at exactly
      1/2^k, 2/2^k, ..., 1; and when no permitted level is flat enough it emits nothing at all. */
  lemma {:induction false} TessIsUniform(p0: Pt, p1: Pt, p2: Pt, flat2: real, n: nat)
    requires n <= MAX_DEPTH + 1
    ensures var k := Levels(Deviation(p0, p1, p2), flat2, MAX_DEPTH + 1 - n);
            var points := Tess(p0, p1, p2, flat2, n);
            if k == MAX_DEPTH + 1 - n then points == [] else AreSamples(points, p0, p1, p2, k)
    decreases MAX_DEPTH + 1 - n
  {
    hide *;
    var d := Deviation(p0, p1, p2);
    var cap := MAX_DEPTH + 1 - n;
    if cap == 0 {
      DepthExceeded(p0, p1, p2, flat2, n);
    } else {
      TessStep(p0, p1, p2, flat2, n);
      LevelsStep(d, flat2, cap);
      if d > flat2 {
        var m := Middle(p0, p1, p2);
        HalvesDeviation(p0, p1, p2);
        TessIsUniform(p0, Mid(p0, p1), m, flat2, n + 1);
        TessIsUniform(m, Mid(p1, p2), p2, flat2, n + 1);
        var k := Levels(d / 16.0, flat2, cap - 1);
        var left, right := Tess(p0, Mid(p0, p1), m, flat2, n + 1), Tess(m, Mid(p1, p2), p2, flat2, n + 1);
        if k < cap - 1 {
          SamplesOfHalves(left, right, p0, p1, p2, k);
        } else {
          assert left == [] && right == [];
        }
      } else {
        OneSample(p0, p1, p2);
      }
    }
  }

  lemma TessStep(p0: Pt, p1: Pt, p2: Pt, flat2: real, n: nat)
    requires n <= MAX_DEPTH
    ensures Deviation(p0, p1, p2) <= flat2 ==> Tess(p0, p1, p2, flat2, n) == [p2]
    ensures Deviation(p0, p1, p2) > flat2 ==>
              var m := Middle(p0, p1, p2);
              var left, right := Tess(p0, Mid(p0, p1), m, flat2, n + 1), Tess(m, Mid(p1, p2), p2, flat2, n + 1);
              Tess(p0, p1, p2, flat2, n) == left + right
  {
    hide Middle, Mid, Deviation;
  }

  lemma DepthExceeded(p0: Pt, p1: Pt, p2: Pt, flat2: real, n: nat)
    requires n > MAX_DEPTH
    ensures Tess(p0, p1, p2, flat2, n) == []
  {
  }

  lemma LevelsStep(d: real, flat2: real, cap: nat)
    requires cap > 0
    ensures Levels(d, flat2, cap) == if d > flat2 then 1 + Levels(d / 16.0, flat2, cap - 1) else 0
  {
  }

  lemma OneSample(p0: Pt, p1: Pt, p2: Pt)
    ensures AreSamples([p2], p0, p1, p2, 0)
  {
    CurveEnds(p0, p1, p2);
  }

  lemma CurveEnds(p0: Pt, p1: Pt, p2: Pt)
    ensures Curve(p0, p1, p2, 0.0) == p0 && Curve(p0, p1, p2, Sample(1, 0)) == p2
  {
    assert Pow2(0) as real == 1.0;
  }

  // ---------- When anything is emitted, and how close it is ----------

  /** The level found is the least one whose shrunken deviation passes. */
  lemma {:induction false} LevelsIsLeast(d: real, flat2: real, cap: nat)
    requires flat2 >= 0.0 && cap > 0
    ensures var k := Levels(d, flat2, cap);
            && (k < cap ==> d <= Pow16(k) * flat2)
            && (k > 0 ==> d > Pow16(k - 1) * flat2)
    decreases cap
  {
    if d > flat2 && cap > 1 {
      LevelsIsLeast(d / 16.0, flat2, cap - 1);
      var k := Levels(d / 16.0, flat2, cap - 1);
      assert Pow16(k + 1) * flat2 == 16.0 * (Pow16(k) * flat2);
      if k > 0 { assert Pow16(k) * flat2 == 16.0 * (Pow16(k - 1) * flat2); }
    }
  }

  lemma {:induction false} Pow16Grows(j: nat, k: nat)
    requires j <= k
    ensures Pow16(j) <= Pow16(k)
  {
    if j < k { Pow16Grows(j, k - 1); }
  }

  /** A curve is drawn exactly when its deviation is at most 16^16 times the squared tolerance; a curve
      beyond that disappears without its end point. */
  lemma EmitsIffWithinDepth(p0: Pt, p1: Pt, p2: Pt, flat2: real)
    requires flat2 >= 0.0
    ensures Tess(p0, p1, p2, flat2, 0) != [] <==> Deviation(p0, p1, p2) <= Pow16(MAX_DEPTH) * flat2
    ensures |Tess(p0, p1, p2, flat2, 0)| <= Pow2(MAX_DEPTH)
  {
    hide Deviation, Tess, Curve, Pow16, Levels, Pow2;
    var d, cap := Deviation(p0, p1, p2), MAX_DEPTH + 1;
    var k := Levels(d, flat2, cap);
    TessIsUniform(p0, p1, p2, flat2, 0);
    LevelsIsLeast(d, flat2, cap);
    if k < cap {
      Pow16Grows(k, MAX_DEPTH);
      Pow2Grows(k, MAX_DEPTH);
      MulMonotone(Pow16(k), Pow16(MAX_DEPTH), flat2);
    }
  }

  /** For instance: a spike of height one, for any squared tolerance below 16^-16, zero included. */
  lemma SpikeVanishes(flat2: real)
    requires flat2 >= 0.0 && Pow16(MAX_DEPTH) * flat2 < 1.0
    ensures Tess(Pt.Pt(0.0, 0.0), Pt.Pt(0.0, 2.0), Pt.Pt(0.0, 0.0), flat2, 0) == []
  {
    hide Tess, Pow16;
    EmitsIffWithinDepth(Pt.Pt(0.0, 0.0), Pt.Pt(0.0, 2.0), Pt.Pt(0.0, 0.0), flat2);
  }

  lemma {:induction false} Pow2Grows(j: nat, k: nat)
    requires j <= k
    ensures Pow2(j) <= Pow2(k)
  {
    if j < k { Pow2Grows(j, k - 1); }
  }

  lemma MulMonotone(x: real, y: real, f: real)
    requires x <= y && f >= 0.0
    ensures x * f <= y * f
  {
  }

  function Lerp(a: Pt, b: Pt, u: real): Pt { Pt.Pt(a.x + (b.x - a.x) * u, a.y + (b.y - a.y) * u) }

  function Dist2(a: Pt, b: Pt): real { (a.x - b.x) * (a.x - b.x) + (a.y - b.y) * (a.y - b.y) }

  /** Along one axis, the curve leaves the chord over [t, t+h] by the second difference times h^2 u (1-u). */
  lemma ChordError(a: real, b: real, c: real, t: real, h: real, u: real)
    ensures var from, to := Bez(a, b, c, t), Bez(a, b, c, t + h);
            from + (to - from) * u - Bez(a, b, c, t + h * u) == Bulge(Gap(a, b, c), h * h, u * (1.0 - u))
  {
    var d, e := a - 2.0 * b + c, 2.0 * (b - a);
    var from, to := Bez(a, b, c, t), Bez(a, b, c, t + h);
    assert to - from == e * h + d * (2.0 * t * h + h * h) by {
      assert (t + h) * (t + h) == t * t + 2.0 * t * h + h * h;
      assert to == a + e * (t + h) + d * ((t + h) * (t + h)) && from == a + e * t + d * (t * t);
      assert d * (t * t + 2.0 * t * h + h * h) == d * (t * t) + d * (2.0 * t * h + h * h);
    }
    var v := t + h * u;
    assert Bez(a, b, c, v) - from == e * h * u + d * (2.0 * t * h * u + h * h * u * u) by {
      assert v * v == t * t + 2.0 * t * h * u + h * h * u * u;
      assert Bez(a, b, c, v) == a + e * v + d * (v * v) && from == a + e * t + d * (t * t);
      assert e * v == e * t + e * h * u;
      assert d * (t * t + 2.0 * t * h * u + h * h * u * u) == d * (t * t) + d * (2.0 * t * h * u + h * h * u * u);
    }
    assert (e * h + d * (2.0 * t * h + h * h)) * u == e * h * u + d * (2.0 * t * h * u + h * h * u);
    assert d * (2.0 * t * h * u + h * h * u) - d * (2.0 * t * h * u + h * h * u * u) == d * (h * h) * (u * (1.0 - u));
    assert d == 4.0 * Gap(a, b, c);
  }

  lemma ParabolaBound(u: real)
    requires 0.0 <= u <= 1.0
    ensures 0.0 <= u * (1.0 - u) <= 0.25
  {
    Product(u, 1.0 - u);
    SquareIsNonNegative(u - 0.5);
    assert 0.25 - u * (1.0 - u) == (u - 0.5) * (u - 0.5);
  }

  lemma Product(x: real, y: real)
    requires x >= 0.0 && y >= 0.0
    ensures x * y >= 0.0
  {
  }

  lemma SquareIsNonNegative(x: real)
    ensures x * x >= 0.0
  {
    if x >= 0.0 { Product(x, x); } else { Product(-x, -x); assert x * x == (-x) * (-x); }
  }

  /** Over a parameter step h, the curve stays within h^4 times its deviation of the chord. */
  lemma ChordDistance(p0: Pt, p1: Pt, p2: Pt, t: real, h: real, u: real)
    requires 0.0 <= u <= 1.0
    ensures Dist2(Lerp(Curve(p0, p1, p2, t), Curve(p0, p1, p2, t + h), u), Curve(p0, p1, p2, t + h * u))
         <= Deviation(p0, p1, p2) * (h * h * (h * h))
  {
    ChordErrors(p0, p1, p2, t, h, u);
    ParabolaBound(u);
    hide *;
    var c := Curve(p0, p1, p2, t + h * u);
    var l := Lerp(Curve(p0, p1, p2, t), Curve(p0, p1, p2, t + h), u);
    ScaledSquares(l, c, p0, p1, p2, h * h, u * (1.0 - u));
  }

  /** How far the curve is from the chord along one axis, for a second difference g. */
  function Bulge(g: real, s: real, w: real): real { 4.0 * g * s * w }

  lemma ChordErrors(p0: Pt, p1: Pt, p2: Pt, t: real, h: real, u: real)
    ensures var c := Curve(p0, p1, p2, t + h * u);
            var l := Lerp(Curve(p0, p1, p2, t), Curve(p0, p1, p2, t + h), u);
            && l.x - c.x == Bulge(Gap(p0.x, p1.x, p2.x), h * h, u * (1.0 - u))
            && l.y - c.y == Bulge(Gap(p0.y, p1.y, p2.y), h * h, u * (1.0 - u))
  {
    hide Gap, Bez, Bulge;
    ChordError(p0.x, p1.x, p2.x, t, h, u);
    ChordError(p0.y, p1.y, p2.y, t, h, u);
  }

  lemma ScaledSquares(l: Pt, c: Pt, p0: Pt, p1: Pt, p2: Pt, s: real, w: real)
    requires 0.0 <= w <= 0.25
    requires l.x - c.x == Bulge(Gap(p0.x, p1.x, p2.x), s, w) && l.y - c.y == Bulge(Gap(p0.y, p1.y, p2.y), s, w)
    ensures Dist2(l, c) <= Deviation(p0, p1, p2) * (s * s)
  {
    hide Gap, Bulge;
    var gx, gy := Gap(p0.x, p1.x, p2.x), Gap(p0.y, p1.y, p2.y);
    ScaledSquare(gx, s, w, l.x - c.x);
    ScaledSquare(gy, s, w, l.y - c.y);
    Distribute(gx * gx, gy * gy, s * s);
  }

  lemma Distribute(a: real, b: real, c: real)
    ensures (a + b) * c == a * c + b * c
  {
  }

  lemma ScaledSquare(g: real, s: real, w: real, x: real)
    requires 0.0 <= w <= 0.25 && x == Bulge(g, s, w)
    ensures x * x <= g * g * (s * s)
  {
    var q, r := g * s, 4.0 * w;
    assert x == q * r && q * q == g * g * (s * s);
    Product(1.0 - r, 1.0 + r);
    assert 1.0 - r * r == (1.0 - r) * (1.0 + r);
    SquareIsNonNegative(q);
    Product(q * q, 1.0 - r * r);
    assert (q * q) * (1.0 - r * r) == q * q - x * x;
  }

  lemma {:induction false} StepPower(k: nat)
    ensures var h := 1.0 / Pow2(k) as real; h * h * (h * h) * Pow16(k) == 1.0
  {
    if k > 0 {
      StepPower(k - 1);
      var g, h := 1.0 / Pow2(k - 1) as real, 1.0 / Pow2(k) as real;
      assert Pow2(k) as real == 2.0 * Pow2(k - 1) as real;
      HalveQuotient(1.0, Pow2(k - 1) as real);
      assert h == g / 2.0;
      assert h * h == g * g / 4.0;
      assert h * h * (h * h) == g * g * (g * g) / 16.0;
    }
  }

  /** The polyline from the start of the curve through the emitted points stays within the tolerance of
      the whole curve. */
  lemma TessWithinTolerance(p0: Pt, p1: Pt, p2: Pt, flat2: real, i: nat, u: real)
    requires flat2 >= 0.0 && 0.0 <= u <= 1.0
    requires i < |Tess(p0, p1, p2, flat2, 0)|
    ensures var n := |Tess(p0, p1, p2, flat2, 0)| as real;
            var polyline := [p0] + Tess(p0, p1, p2, flat2, 0);
            Dist2(Lerp(polyline[i], polyline[i + 1], u), Curve(p0, p1, p2, (i as real + u) / n)) <= flat2
  {
    hide Tess, Deviation, Curve, Dist2, Lerp, Levels, Pow16;
    var k := Levels(Deviation(p0, p1, p2), flat2, MAX_DEPTH + 1);
    TessIsUniform(p0, p1, p2, flat2, 0);
    LevelsIsLeast(Deviation(p0, p1, p2), flat2, MAX_DEPTH + 1);
    SamplesWithinTolerance(Tess(p0, p1, p2, flat2, 0), p0, p1, p2, flat2, k, i, u);
  }

  lemma SamplesWithinTolerance(points: seq<Pt>, p0: Pt, p1: Pt, p2: Pt, flat2: real, k: nat, i: nat, u: real)
    requires AreSamples(points, p0, p1, p2, k) && i < |points| && 0.0 <= u <= 1.0
    requires Deviation(p0, p1, p2) <= Pow16(k) * flat2
    ensures var polyline := [p0] + points;
            Dist2(Lerp(polyline[i], polyline[i + 1], u), Curve(p0, p1, p2, (i as real + u) / |points| as real)) <= flat2
  {
    hide Deviation, Curve, Dist2, Lerp, Pow2, Pow16, Sample;
    var h, t, polyline := 1.0 / Pow2(k) as real, Sample(i, k), [p0] + points;
    var next, between := t + h, t + h * u;
    assert polyline[i] == Curve(p0, p1, p2, t) && polyline[i + 1] == Curve(p0, p1, p2, next) by {
      PolylineVertices(points, p0, p1, p2, k, i);
      SampleStep(i, k, u);
    }
    assert (i as real + u) / |points| as real == between by {
      assert |points| as real == Pow2(k) as real;
      SampleStep(i, k, u);
    }
    assert Dist2(Lerp(Curve(p0, p1, p2, t), Curve(p0, p1, p2, next), u), Curve(p0, p1, p2, between)) <= flat2 by {
      ChordDistance(p0, p1, p2, t, h, u);
      StepBound(Deviation(p0, p1, p2), flat2, k);
    }
  }

  lemma StepBound(d: real, flat2: real, k: nat)
    requires d <= Pow16(k) * flat2
    ensures var h := 1.0 / Pow2(k) as real; d * (h * h * (h * h)) <= flat2
  {
    var h := 1.0 / Pow2(k) as real;
    StepPower(k);
    SquareIsNonNegative(h * h);
    ShrinkBound(d, flat2, h * h * (h * h), Pow16(k));
  }

  lemma PolylineVertices(points: seq<Pt>, p0: Pt, p1: Pt, p2: Pt, k: nat, i: nat)
    requires AreSamples(points, p0, p1, p2, k) && i < |points|
    ensures ([p0] + points)[i] == Curve(p0, p1, p2, Sample(i, k))
    ensures ([p0] + points)[i + 1] == Curve(p0, p1, p2, Sample(i + 1, k))
  {
    hide Curve, Sample;
    CurveEnds(p0, p1, p2);
    ZeroSample(k);
  }

  lemma SampleStep(i: nat, k: nat, u: real)
    ensures Sample(i + 1, k) == Sample(i, k) + 1.0 / Pow2(k) as real
    ensures (i as real + u) / Pow2(k) as real == Sample(i, k) + 1.0 / Pow2(k) as real * u
  {
    var n := Pow2(k) as real;
    SplitQuotient(i as real, u, n);
    SplitQuotient(i as real, 1.0, n);
  }

  lemma ZeroSample(k: nat)
    ensures Sample(0, k) == 0.0
  {
  }

  lemma SplitQuotient(x: real, u: real, n: real)
    requires n > 0.0
    ensures (x + u) / n == x / n + 1.0 / n * u
  {
    var q, r := x / n, 1.0 / n;
    assert q * n == x && r * n == 1.0;
    assert (q + r * u) * n == q * n + (r * n) * u;
    QuotientOf(x + u, q + r * u, n);
  }

  lemma ShrinkBound(d: real, f: real, s: real, p: real)
    requires d <= p * f && s * p == 1.0 && s >= 0.0
    ensures d * s <= f
  {
    assert (p * f - d) * s >= 0.0;
    assert p * f * s == f * (s * p);
  }
}
