/** Recursive subdivision of cubic Bezier curves. Whether a piece is flat enough depends on a square
    root, which is left uninterpreted: nothing here relies on which pieces are split. */
module CubicTessellation {
  import opened MachineInts
  import opened CurveTessellation

  function Bez3(a: real, b: real, c: real, d: real, t: real): real {
    a + 3.0 * (b - a) * t + 3.0 * (a - 2.0 * b + c) * t * t + (d - 3.0 * c + 3.0 * b - a) * t * t * t
  }

  function Cubic(p0: Pt, p1: Pt, p2: Pt, p3: Pt, t: real): Pt {
    Pt.Pt(Bez3(p0.x, p1.x, p2.x, p3.x, t), Bez3(p0.y, p1.y, p2.y, p3.y, t))
  }

  /** The control points of the two halves of a cubic, which share `m`. */
  datatype Split = Split(p01: Pt, pa: Pt, m: Pt, pb: Pt, p23: Pt)

  function Halve(p0: Pt, p1: Pt, p2: Pt, p3: Pt): Split {
    var p01, p12, p23 := Mid(p0, p1), Mid(p1, p2), Mid(p2, p3);
    var pa, pb := Mid(p01, p12), Mid(p12, p23);
    Split.Split(p01, pa, Mid(pa, pb), pb, p23)
  }

  function Length(sqrt: real -> real, p: Pt, q: Pt): real { sqrt(Dist2(q, p)) }

  /** How much longer the control polygon is than the chord, by squares. */
  function Flatness(sqrt: real -> real, p0: Pt, p1: Pt, p2: Pt, p3: Pt): real {
    var long := Length(sqrt, p0, p1) + Length(sqrt, p1, p2) + Length(sqrt, p2, p3);
    var short := Length(sqrt, p0, p3);
    long * long - short * short
  }

  function TessCubic(sqrt: real -> real, p0: Pt, p1: Pt, p2: Pt, p3: Pt, flat2: real, n: nat): seq<Pt>
    decreases MAX_DEPTH + 1 - n
  {
    if n > MAX_DEPTH then []
    else if Flatness(sqrt, p0, p1, p2, p3) > flat2 then
      var h := Halve(p0, p1, p2, p3);
      TessCubic(sqrt, p0, h.p01, h.pa, h.m, flat2, n + 1) + TessCubic(sqrt, h.m, h.pb, h.p23, p3, flat2, n + 1)
    else [p3]
  }

  lemma TessCubicStep(sqrt: real -> real, p0: Pt, p1: Pt, p2: Pt, p3: Pt, flat2: real, n: nat)
    ensures var h, ts := Halve(p0, p1, p2, p3), TessCubic(sqrt, p0, p1, p2, p3, flat2, n);
            if n > MAX_DEPTH then ts == []
            else if Flatness(sqrt, p0, p1, p2, p3) > flat2 then
              ts == TessCubic(sqrt, p0, h.p01, h.pa, h.m, flat2, n + 1)
                  + TessCubic(sqrt, h.m, h.pb, h.p23, p3, flat2, n + 1)
            else ts == [p3]
  {
    hide Flatness, Halve;
  }

  /** `stbtt__tesselate_cubic`. */
  method TesselateCubic(sqrt: real -> real, points: array?<Pt>, num: nat, p0: Pt, p1: Pt, p2: Pt, p3: Pt,
                        flat2: real, n: nat)
    returns (num': nat)
    requires points != null ==> num + |TessCubic(sqrt, p0, p1, p2, p3, flat2, n)| <= points.Length
    modifies points
    ensures num' == num + |TessCubic(sqrt, p0, p1, p2, p3, flat2, n)|
    ensures points != null ==> points[..num'] == old(points[..num]) + TessCubic(sqrt, p0, p1, p2, p3, flat2, n)
    decreases MAX_DEPTH + 1 - n
  {
    hide Flatness, Halve, TessCubic;
    TessCubicStep(sqrt, p0, p1, p2, p3, flat2, n);
    num' := num;
    if n > MAX_DEPTH { return; }
    if Flatness(sqrt, p0, p1, p2, p3) > flat2 {
      var h := Halve(p0, p1, p2, p3);
      num' := TesselateCubic(sqrt, points, num', p0, h.p01, h.pa, h.m, flat2, n + 1);
      num' := TesselateCubic(sqrt, points, num', h.m, h.pb, h.p23, p3, flat2, n + 1);
    } else {
      if points != null { points[num'] := p3; }
      num' := num' + 1;
    }
  }

  // ---------- The points lie on the curve, in order ----------

  /** The curve parameters of the emitted points. */
  function Times(sqrt: real -> real, p0: Pt, p1: Pt, p2: Pt, p3: Pt, flat2: real, n: nat): seq<real>
    decreases MAX_DEPTH + 1 - n
  {
    if n > MAX_DEPTH then []
    else if Flatness(sqrt, p0, p1, p2, p3) > flat2 then
      var h := Halve(p0, p1, p2, p3);
      var left := Times(sqrt, p0, h.p01, h.pa, h.m, flat2, n + 1);
      var right := Times(sqrt, h.m, h.pb, h.p23, p3, flat2, n + 1);
      Join(left, right)
    else [1.0]
  }

  /** Parameters of the halves as parameters of the whole. */
  function Join(left: seq<real>, right: seq<real>): (ts: seq<real>)
    ensures |ts| == |left| + |right|
    ensures forall i | 0 <= i < |ts| ::
              ts[i] == if i < |left| then left[i] / 2.0 else (1.0 + right[i - |left|]) / 2.0
  {
    seq(|left|, i requires 0 <= i < |left| => left[i] / 2.0)
    + seq(|right|, i requires 0 <= i < |right| => (1.0 + right[i]) / 2.0)
  }

  lemma JoinAscends(left: seq<real>, right: seq<real>)
    requires Ascending(left) && Ascending(right)
    ensures Ascending(Join(left, right))
  {
  }

  /** The cubic by its differences. */
  lemma ByDifferences(a: real, b: real, c: real, d: real, e: real, f: real, g: real, t: real)
    requires e == b - a && f == a - 2.0 * b + c && g == d - 3.0 * c + 3.0 * b - a
    ensures Bez3(a, b, c, d, t) == a + Grown(e, f, g, t)
  {
  }

  function Grown(e: real, f: real, g: real, t: real): real { 3.0 * e * t + 3.0 * f * t * t + g * t * t * t }

  lemma LeftHalf(a: real, b: real, c: real, d: real, t: real)
    ensures var ab, bc, cd := (a + b) / 2.0, (b + c) / 2.0, (c + d) / 2.0;
            var l, r := (ab + bc) / 2.0, (bc + cd) / 2.0;
            Bez3(a, ab, l, (l + r) / 2.0, t) == Bez3(a, b, c, d, t / 2.0)
  {
    hide Bez3, Grown;
    var e, f, g := b - a, a - 2.0 * b + c, d - 3.0 * c + 3.0 * b - a;
    var ab, bc, cd := (a + b) / 2.0, (b + c) / 2.0, (c + d) / 2.0;
    var l, r := (ab + bc) / 2.0, (bc + cd) / 2.0;
    ByDifferences(a, b, c, d, e, f, g, t / 2.0);
    ByDifferences(a, ab, l, (l + r) / 2.0, e / 2.0, f / 4.0, g / 8.0, t);
    GrownAtHalf(e, f, g, t);
  }

  lemma RightHalf(a: real, b: real, c: real, d: real, t: real)
    ensures var ab, bc, cd := (a + b) / 2.0, (b + c) / 2.0, (c + d) / 2.0;
            var l, r := (ab + bc) / 2.0, (bc + cd) / 2.0;
            Bez3((l + r) / 2.0, r, cd, d, t) == Bez3(a, b, c, d, (1.0 + t) / 2.0)
  {
    hide Bez3, Grown;
    var e, f, g := b - a, a - 2.0 * b + c, d - 3.0 * c + 3.0 * b - a;
    var ab, bc, cd := (a + b) / 2.0, (b + c) / 2.0, (c + d) / 2.0;
    var l, r := (ab + bc) / 2.0, (bc + cd) / 2.0;
    ByDifferences(a, b, c, d, e, f, g, (1.0 + t) / 2.0);
    ByDifferences((l + r) / 2.0, r, cd, d, e / 2.0 + f / 2.0 + g / 8.0, f / 4.0 + g / 8.0, g / 8.0, t);
    GrownPastHalf(e, f, g, t);
  }

  /** With the powers of t as numbers of their own. */
  lemma GrownByPowers(e: real, f: real, g: real, t: real, tt: real, ttt: real)
    requires tt == t * t && ttt == t * t * t
    ensures Grown(e, f, g, t) == 3.0 * (e * t) + 3.0 * (f * tt) + g * ttt
  {
    assert f * t * t == f * tt && g * t * t * t == g * ttt;
  }

  lemma GrownAtHalf(e: real, f: real, g: real, t: real)
    ensures Grown(e, f, g, t / 2.0) == Grown(e / 2.0, f / 4.0, g / 8.0, t)
  {
    hide Grown;
    var s, tt, ttt := t / 2.0, t * t, t * t * t;
    PowersOfHalf(s, t);
    GrownByPowers(e, f, g, s, tt / 4.0, ttt / 8.0);
    GrownByPowers(e / 2.0, f / 4.0, g / 8.0, t, tt, ttt);
    Quotients(e, t, 2.0);
    Quotients(f, tt, 4.0);
    Quotients(g, ttt, 8.0);
  }

  lemma PowersOfHalf(s: real, t: real)
    requires s == t / 2.0
    ensures t * t / 4.0 == s * s && t * t * t / 8.0 == s * s * s
  {
    assert t == 2.0 * s;
  }

  lemma Quotients(x: real, y: real, k: real)
    requires k != 0.0
    ensures x * (y / k) == x / k * y
  {
  }

  lemma GrownPastHalf(e: real, f: real, g: real, t: real)
    ensures Grown(e, f, g, (1.0 + t) / 2.0)
         == 3.0 * e / 2.0 + 3.0 * f / 4.0 + g / 8.0
            + Grown(e / 2.0 + f / 2.0 + g / 8.0, f / 4.0 + g / 8.0, g / 8.0, t)
  {
    hide Grown;
    var s, tt, ttt := (1.0 + t) / 2.0, t * t, t * t * t;
    var ss, sss := (1.0 + 2.0 * t + tt) / 4.0, (1.0 + 3.0 * t + 3.0 * tt + ttt) / 8.0;
    var u, v, w := e / 2.0 + f / 2.0 + g / 8.0, f / 4.0 + g / 8.0, g / 8.0;
    PowersPastHalf(s, t, ss, tt, sss, ttt);
    GrownByPowers(e, f, g, s, ss, sss);
    GrownByPowers(u, v, w, t, tt, ttt);
    TimesSum(e, 0.5, t, 0.5, tt, 0.0, ttt, 0.0, s);
    TimesSum(f, 0.25, t, 0.5, tt, 0.25, ttt, 0.0, ss);
    TimesSum(g, 0.125, t, 0.375, tt, 0.375, ttt, 0.125, sss);
    TimesSum(t, 0.0, e, 0.5, f, 0.5, g, 0.125, u);
    TimesSum(tt, 0.0, e, 0.0, f, 0.25, g, 0.125, v);
    TimesSum(ttt, 0.0, e, 0.0, f, 0.0, g, 0.125, w);
    AddUp(e, f, g, e * t, f * t, g * t, f * tt, g * tt, g * ttt, e * s, f * ss, g * sss, u * t, v * tt, w * ttt);
  }

  lemma TimesSum(x: real, k0: real, a: real, k1: real, b: real, k2: real, c: real, k3: real, sum: real)
    requires sum == k0 + k1 * a + k2 * b + k3 * c
    ensures x * sum == k0 * x + k1 * (x * a) + k2 * (x * b) + k3 * (x * c)
    ensures sum * x == x * sum && a * x == x * a && b * x == x * b && c * x == x * c
  {
    assert x * (k1 * a) == k1 * (x * a) && x * (k2 * b) == k2 * (x * b) && x * (k3 * c) == k3 * (x * c);
  }

  lemma PowersPastHalf(s: real, t: real, ss: real, tt: real, sss: real, ttt: real)
    requires s == (1.0 + t) / 2.0 && tt == t * t && ttt == t * t * t
    requires ss == (1.0 + 2.0 * t + tt) / 4.0 && sss == (1.0 + 3.0 * t + 3.0 * tt + ttt) / 8.0
    ensures ss == s * s && sss == s * s * s
  {
    TimesSum(s, 0.5, t, 0.5, tt, 0.0, ttt, 0.0, s);
    TimesSum(t, 0.5, t, 0.5, tt, 0.0, ttt, 0.0, s);
    TimesSum(ss, 0.5, t, 0.5, tt, 0.0, ttt, 0.0, s);
    TimesSum(t, 0.25, t, 0.5, tt, 0.25, ttt, 0.0, ss);
    assert t * tt == ttt;
  }

  lemma AddUp(e: real, f: real, g: real, et: real, ft: real, gt: real, ftt: real, gtt: real, gttt: real,
              es: real, fss: real, gsss: real, ut: real, vtt: real, wttt: real)
    requires es == 0.5 * e + 0.5 * et && fss == 0.25 * f + 0.5 * ft + 0.25 * ftt
    requires gsss == 0.125 * g + 0.375 * gt + 0.375 * gtt + 0.125 * gttt
    requires ut == 0.5 * et + 0.5 * ft + 0.125 * gt && vtt == 0.25 * ftt + 0.125 * gtt && wttt == 0.125 * gttt
    ensures 3.0 * es + 3.0 * fss + gsss
         == 3.0 * e / 2.0 + 3.0 * f / 4.0 + g / 8.0 + (3.0 * ut + 3.0 * vtt + wttt)
  {
  }

  lemma HalvesCubic(p0: Pt, p1: Pt, p2: Pt, p3: Pt, t: real)
    ensures var h := Halve(p0, p1, p2, p3);
            && Cubic(p0, h.p01, h.pa, h.m, t) == Cubic(p0, p1, p2, p3, t / 2.0)
            && Cubic(h.m, h.pb, h.p23, p3, t) == Cubic(p0, p1, p2, p3, (1.0 + t) / 2.0)
  {
    hide Bez3;
    LeftHalf(p0.x, p1.x, p2.x, p3.x, t);
    LeftHalf(p0.y, p1.y, p2.y, p3.y, t);
    RightHalf(p0.x, p1.x, p2.x, p3.x, t);
    RightHalf(p0.y, p1.y, p2.y, p3.y, t);
  }

  ghost predicate Ascending(ts: seq<real>) {
    && (forall i | 0 <= i < |ts| :: 0.0 < ts[i] <= 1.0)
    && (forall i, j | 0 <= i < j < |ts| :: ts[i] < ts[j])
  }

  /** `points` are the curve at the ascending parameters `ts`. */
  ghost predicate OnCurve(points: seq<Pt>, ts: seq<real>, p0: Pt, p1: Pt, p2: Pt, p3: Pt) {
    && |ts| == |points| && Ascending(ts)
    && forall i | 0 <= i < |ts| :: points[i] == Cubic(p0, p1, p2, p3, ts[i])
  }

  lemma JoinOnCurve(left: seq<Pt>, ls: seq<real>, right: seq<Pt>, rs: seq<real>, p0: Pt, p1: Pt, p2: Pt, p3: Pt)
    requires var h := Halve(p0, p1, p2, p3);
             OnCurve(left, ls, p0, h.p01, h.pa, h.m) && OnCurve(right, rs, h.m, h.pb, h.p23, p3)
    ensures OnCurve(left + right, Join(ls, rs), p0, p1, p2, p3)
  {
    hide Cubic, Halve, Ascending;
    JoinAscends(ls, rs);
    forall i | 0 <= i < |left| + |right|
      ensures (left + right)[i] == Cubic(p0, p1, p2, p3, Join(ls, rs)[i])
    {
      if i < |left| {
        HalvesCubic(p0, p1, p2, p3, ls[i]);
      } else {
        HalvesCubic(p0, p1, p2, p3, rs[i - |left|]);
      }
    }
  }

  /** Whatever the flatness test does, the emitted points are curve points at strictly increasing
      parameters in (0, 1]. */
  lemma {:induction false} CubicPointsOnCurve(sqrt: real -> real, p0: Pt, p1: Pt, p2: Pt, p3: Pt, flat2: real, n: nat)
    ensures OnCurve(TessCubic(sqrt, p0, p1, p2, p3, flat2, n), Times(sqrt, p0, p1, p2, p3, flat2, n), p0, p1, p2, p3)
    decreases MAX_DEPTH + 1 - n
  {
    hide Flatness, Halve, OnCurve, Join;
    SmallOnCurve(p0, p1, p2, p3);
    if n <= MAX_DEPTH && Flatness(sqrt, p0, p1, p2, p3) > flat2 {
      var h := Halve(p0, p1, p2, p3);
      CubicPointsOnCurve(sqrt, p0, h.p01, h.pa, h.m, flat2, n + 1);
      CubicPointsOnCurve(sqrt, h.m, h.pb, h.p23, p3, flat2, n + 1);
      JoinOnCurve(TessCubic(sqrt, p0, h.p01, h.pa, h.m, flat2, n + 1), Times(sqrt, p0, h.p01, h.pa, h.m, flat2, n + 1),
                  TessCubic(sqrt, h.m, h.pb, h.p23, p3, flat2, n + 1), Times(sqrt, h.m, h.pb, h.p23, p3, flat2, n + 1),
                  p0, p1, p2, p3);
    }
  }

  lemma SmallOnCurve(p0: Pt, p1: Pt, p2: Pt, p3: Pt)
    ensures OnCurve([], [], p0, p1, p2, p3) && OnCurve([p3], [1.0], p0, p1, p2, p3)
  {
  }

  // ---------- Where the points end, and how many there are ----------

  /** The control points of the last piece of the curve after k halvings, the curve on [1 - 1/2^k, 1]. */
  function LastPiece(p0: Pt, p1: Pt, p2: Pt, p3: Pt, k: nat): (Pt, Pt, Pt, Pt)
    decreases k
  {
    if k == 0 then (p0, p1, p2, p3)
    else
      var h := Halve(p0, p1, p2, p3);
      LastPiece(h.m, h.pb, h.p23, p3, k - 1)
  }

  lemma {:induction false} LastPieceOnCurve(p0: Pt, p1: Pt, p2: Pt, p3: Pt, k: nat, t: real)
    ensures var q := LastPiece(p0, p1, p2, p3, k);
            Cubic(q.0, q.1, q.2, q.3, t) == Cubic(p0, p1, p2, p3, 1.0 - (1.0 - t) / Pow2(k) as real)
    decreases k
  {
    hide Cubic, Halve;
    if k == 0 {
      assert (1.0 - t) / Pow2(0) as real == 1.0 - t;
    } else {
      var h := Halve(p0, p1, p2, p3);
      LastPieceOnCurve(h.m, h.pb, h.p23, p3, k - 1, t);
      HalvesCubic(p0, p1, p2, p3, 1.0 - (1.0 - t) / Pow2(k - 1) as real);
      HalfQuotient(1.0 - t, Pow2(k - 1));
    }
  }

  lemma HalfQuotient(x: real, p: nat)
    requires p > 0
    ensures (1.0 + (1.0 - x / p as real)) / 2.0 == 1.0 - x / (2 * p) as real
  {
    var q := p as real;
    assert (2 * p) as real == 2.0 * q;
    assert x / (2.0 * q) == x / q / 2.0;
  }

  /** Whether the last piece after k halvings passes the flatness test. */
  predicate LastPieceFlat(sqrt: real -> real, p0: Pt, p1: Pt, p2: Pt, p3: Pt, flat2: real, k: nat) {
    var q := LastPiece(p0, p1, p2, p3, k);
    Flatness(sqrt, q.0, q.1, q.2, q.3) <= flat2
  }

  ghost predicate ReachesEnd(sqrt: real -> real, p0: Pt, p1: Pt, p2: Pt, p3: Pt, flat2: real, n: nat) {
    exists k :: 0 <= k <= MAX_DEPTH - n && LastPieceFlat(sqrt, p0, p1, p2, p3, flat2, k)
  }

  /** The last point is the end of the curve exactly when some last piece within the depth limit is flat;
      otherwise the polyline stops short of it. */
  lemma {:induction false} CubicReachesEnd(sqrt: real -> real, p0: Pt, p1: Pt, p2: Pt, p3: Pt, flat2: real, n: nat)
    ensures var ts := Times(sqrt, p0, p1, p2, p3, flat2, n);
            ts != [] && ts[|ts| - 1] == 1.0 <==> ReachesEnd(sqrt, p0, p1, p2, p3, flat2, n)
    decreases MAX_DEPTH + 1 - n
  {
    hide Flatness, Halve, OnCurve, TessCubic, LastPieceFlat, Times;
    if n > MAX_DEPTH {
      NoTimes(sqrt, p0, p1, p2, p3, flat2, n);
    } else {
      TimesStep(sqrt, p0, p1, p2, p3, flat2, n);
      var h := Halve(p0, p1, p2, p3);
      if Flatness(sqrt, p0, p1, p2, p3) > flat2 {
        CubicReachesEnd(sqrt, h.m, h.pb, h.p23, p3, flat2, n + 1);
        LaterPieces(sqrt, p0, p1, p2, p3, flat2, n);
        TimesAscend(sqrt, p0, h.p01, h.pa, h.m, flat2, n + 1);
      } else {
        FirstPieceFlat(sqrt, p0, p1, p2, p3, flat2);
      }
    }
  }

  lemma NoTimes(sqrt: real -> real, p0: Pt, p1: Pt, p2: Pt, p3: Pt, flat2: real, n: nat)
    requires n > MAX_DEPTH
    ensures Times(sqrt, p0, p1, p2, p3, flat2, n) == []
  {
  }

  lemma TimesStep(sqrt: real -> real, p0: Pt, p1: Pt, p2: Pt, p3: Pt, flat2: real, n: nat)
    requires n <= MAX_DEPTH
    ensures Flatness(sqrt, p0, p1, p2, p3) <= flat2 ==> Times(sqrt, p0, p1, p2, p3, flat2, n) == [1.0]
    ensures Flatness(sqrt, p0, p1, p2, p3) > flat2 ==>
              var h := Halve(p0, p1, p2, p3);
              Times(sqrt, p0, p1, p2, p3, flat2, n) == Join(Times(sqrt, p0, h.p01, h.pa, h.m, flat2, n + 1),
                                                            Times(sqrt, h.m, h.pb, h.p23, p3, flat2, n + 1))
  {
    hide Flatness, Halve;
  }

  lemma TimesAscend(sqrt: real -> real, p0: Pt, p1: Pt, p2: Pt, p3: Pt, flat2: real, n: nat)
    ensures Ascending(Times(sqrt, p0, p1, p2, p3, flat2, n))
  {
    hide Flatness, Halve, Times, TessCubic;
    CubicPointsOnCurve(sqrt, p0, p1, p2, p3, flat2, n);
  }

  lemma FirstPieceFlat(sqrt: real -> real, p0: Pt, p1: Pt, p2: Pt, p3: Pt, flat2: real)
    ensures LastPieceFlat(sqrt, p0, p1, p2, p3, flat2, 0) <==> Flatness(sqrt, p0, p1, p2, p3) <= flat2
  {
    hide Flatness, Halve;
  }

  lemma LaterPieces(sqrt: real -> real, p0: Pt, p1: Pt, p2: Pt, p3: Pt, flat2: real, n: nat)
    requires Flatness(sqrt, p0, p1, p2, p3) > flat2
    ensures var h := Halve(p0, p1, p2, p3);
            ReachesEnd(sqrt, p0, p1, p2, p3, flat2, n) <==> ReachesEnd(sqrt, h.m, h.pb, h.p23, p3, flat2, n + 1)
  {
    hide Flatness, Halve;
    var h := Halve(p0, p1, p2, p3);
    assert forall k: nat :: LastPiece(p0, p1, p2, p3, k + 1) == LastPiece(h.m, h.pb, h.p23, p3, k);
    if ReachesEnd(sqrt, p0, p1, p2, p3, flat2, n) {
      var k :| 0 <= k <= MAX_DEPTH - n && LastPieceFlat(sqrt, p0, p1, p2, p3, flat2, k);
      assert k > 0;
      assert LastPieceFlat(sqrt, h.m, h.pb, h.p23, p3, flat2, k - 1);
    }
    if ReachesEnd(sqrt, h.m, h.pb, h.p23, p3, flat2, n + 1) {
      var k :| 0 <= k <= MAX_DEPTH - (n + 1) && LastPieceFlat(sqrt, h.m, h.pb, h.p23, p3, flat2, k);
      assert LastPieceFlat(sqrt, p0, p1, p2, p3, flat2, k + 1);
    }
  }

  /** Never more points than pieces at the depth limit; from the top that is 2^16. */
  lemma {:induction false} CubicPointBound(sqrt: real -> real, p0: Pt, p1: Pt, p2: Pt, p3: Pt, flat2: real, n: nat)
    ensures |TessCubic(sqrt, p0, p1, p2, p3, flat2, n)| <= if n > MAX_DEPTH then 0 else Pow2(MAX_DEPTH - n)
    decreases MAX_DEPTH + 1 - n
  {
    hide Flatness, Halve, TessCubic, Pow2;
    TessCubicStep(sqrt, p0, p1, p2, p3, flat2, n);
    if n <= MAX_DEPTH {
      TwicePow2(MAX_DEPTH - n);
      if Flatness(sqrt, p0, p1, p2, p3) > flat2 {
        var h := Halve(p0, p1, p2, p3);
        CubicPointBound(sqrt, p0, h.p01, h.pa, h.m, flat2, n + 1);
        CubicPointBound(sqrt, h.m, h.pb, h.p23, p3, flat2, n + 1);
      }
    }
  }

  lemma TwicePow2(k: nat)
    ensures if k == 0 then Pow2(k) == 1 else Pow2(k) == 2 * Pow2(k - 1)
  {
  }
}
