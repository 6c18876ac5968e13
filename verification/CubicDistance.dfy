/** How close the polyline for a cubic comes to the curve, when the square root is one. */
module CubicDistance {
  import opened CurveTessellation
  import opened CubicTessellation

  ghost predicate IsRoot(sqrt: real -> real) {
    forall x: real :: x >= 0.0 ==> sqrt(x) >= 0.0 && Mul(sqrt(x), sqrt(x)) == x
  }

  // ---------- Products ----------

  /** A product under a name, so that only the laws below are used of it. */
  function Mul(x: real, y: real): real { x * y }

  lemma MulCommutes(x: real, y: real)
    ensures Mul(x, y) == Mul(y, x)
  {
  }

  lemma MulSum(k: real, x: real, y: real)
    ensures Mul(k, x + y) == Mul(k, x) + Mul(k, y) && Mul(x + y, k) == Mul(x, k) + Mul(y, k)
  {
  }

  lemma MulMinus(k: real, x: real, y: real)
    ensures Mul(k, x - y) == Mul(k, x) - Mul(k, y) && Mul(x - y, k) == Mul(x, k) - Mul(y, k)
  {
  }

  lemma MulOne(x: real)
    ensures Mul(x, 1.0) == x && Mul(1.0, x) == x && Mul(x, 0.0) == 0.0 && Mul(0.0, x) == 0.0
  {
  }

  lemma MulNotNegative(x: real, y: real)
    requires x >= 0.0 && y >= 0.0
    ensures Mul(x, y) >= 0.0
  {
  }

  lemma MulGrows(k: real, x: real, y: real)
    requires k >= 0.0 && x <= y
    ensures Mul(k, x) <= Mul(k, y) && Mul(x, k) <= Mul(y, k)
  {
    hide Mul;
    MulNotNegative(k, y - x);
    MulMinus(k, y, x);
    MulCommutes(k, x);
    MulCommutes(k, y);
  }

  lemma SquareNotNegative(x: real)
    ensures Mul(x, x) >= 0.0
  {
    SquareIsNonNegative(x);
  }

  lemma SquareOfOpposite(x: real, y: real)
    ensures Mul(x - y, x - y) == Mul(y - x, y - x)
  {
    var d := x - y;
    assert Mul(-d, -d) == Mul(d, d);
  }

  lemma SquareOfSum(x: real, y: real)
    ensures Mul(x + y, x + y) == Mul(x, x) + 2.0 * Mul(x, y) + Mul(y, y)
  {
    hide Mul;
    MulSum(x + y, x, y);
    MulSum(x, x, y);
    MulSum(y, x, y);
    MulCommutes(x, y);
  }

  lemma SquareOfDifference(x: real, y: real)
    ensures Mul(x - y, x - y) == Mul(x, x) - 2.0 * Mul(x, y) + Mul(y, y)
  {
    hide Mul;
    MulMinus(x - y, x, y);
    MulMinus(x, x, y);
    MulMinus(y, x, y);
    MulCommutes(x, y);
  }

  /** The factors of two products may be exchanged. */
  lemma MulExchange(x: real, y: real, z: real, w: real)
    ensures Mul(Mul(x, y), Mul(z, w)) == Mul(Mul(x, z), Mul(y, w))
  {
  }

  lemma FromSquares(x: real, y: real)
    requires y >= 0.0 && Mul(x, x) <= Mul(y, y)
    ensures x <= y
  {
    if x > y { SquaresGrow(x, y); }
  }

  lemma SquaresGrow(x: real, y: real)
    requires x > y >= 0.0
    ensures Mul(x, x) > Mul(y, y)
  {
    hide Mul;
    SquareOfSum(y, x - y);
    MulNotNegative(y, x - y);
    MulPositive(x - y, x - y);
  }

  lemma MulPositive(x: real, y: real)
    requires x > 0.0 && y > 0.0
    ensures Mul(x, y) > 0.0
  {
  }

  // ---------- Distances ----------

  /** The inner product of the ways from p and q to f. */
  function Dot(p: Pt, q: Pt, f: Pt): real { Mul(f.x - p.x, f.x - q.x) + Mul(f.y - p.y, f.y - q.y) }

  lemma LengthSquared(sqrt: real -> real, p: Pt, q: Pt)
    requires IsRoot(sqrt)
    ensures Length(sqrt, p, q) >= 0.0 && Mul(Length(sqrt, p, q), Length(sqrt, p, q)) == Dist2(p, q)
  {
    hide Mul, Dist2;
    DistIsDot(p, q);
    DistIsNotNegative(q, p);
  }

  lemma DistIsDot(p: Pt, f: Pt)
    ensures Dist2(p, f) == Dot(p, p, f) == Dot(f, f, p) == Dist2(f, p)
  {
    SquareOfOpposite(f.x, p.x);
    SquareOfOpposite(f.y, p.y);
    assert Dist2(p, f) == Mul(p.x - f.x, p.x - f.x) + Mul(p.y - f.y, p.y - f.y);
    assert Dist2(f, p) == Mul(f.x - p.x, f.x - p.x) + Mul(f.y - p.y, f.y - p.y);
    hide Mul;
  }

  lemma Lagrange(a1: real, a2: real, b1: real, b2: real)
    ensures var dot, cross := Mul(a1, b1) + Mul(a2, b2), Mul(a1, b2) - Mul(a2, b1);
            Mul(Mul(a1, a1) + Mul(a2, a2), Mul(b1, b1) + Mul(b2, b2)) == Mul(dot, dot) + Mul(cross, cross)
  {
    hide Mul;
    var p, q, r, s := Mul(a1, a1), Mul(a2, a2), Mul(b1, b1), Mul(b2, b2);
    MulSum(p + q, r, s);
    MulSum(r, p, q);
    MulSum(s, p, q);
    SquareOfSum(Mul(a1, b1), Mul(a2, b2));
    SquareOfDifference(Mul(a1, b2), Mul(a2, b1));
    MulExchange(a1, a1, b1, b1);
    MulExchange(a1, a1, b2, b2);
    MulExchange(a2, a2, b1, b1);
    MulExchange(a2, a2, b2, b2);
    MulExchange(a1, b1, a2, b2);
    MulExchange(a1, b2, a2, b1);
    MulCommutes(b1, b2);
    MulCommutes(a1, a2);
  }

  lemma CauchySchwarz(sqrt: real -> real, p: Pt, q: Pt, f: Pt)
    requires IsRoot(sqrt)
    ensures Dot(p, q, f) <= Mul(Length(sqrt, p, f), Length(sqrt, q, f))
  {
    hide Mul, Length, IsRoot, Dist2;
    var m, n := Length(sqrt, p, f), Length(sqrt, q, f);
    LengthSquared(sqrt, p, f);
    LengthSquared(sqrt, q, f);
    DistIsDot(p, f);
    DistIsDot(q, f);
    Lagrange(f.x - p.x, f.y - p.y, f.x - q.x, f.y - q.y);
    SquareNotNegative(Mul(f.x - p.x, f.y - q.y) - Mul(f.y - p.y, f.x - q.x));
    MulNotNegative(m, n);
    MulExchange(m, n, m, n);
    FromSquares(Dot(p, q, f), Mul(m, n));
  }

  /** Distance to a fixed point is convex. */
  lemma LerpDistance(sqrt: real -> real, a: Pt, b: Pt, u: real, f: Pt)
    requires IsRoot(sqrt) && 0.0 <= u <= 1.0
    ensures Length(sqrt, Lerp(a, b, u), f)
         <= Mul(1.0 - u, Length(sqrt, a, f)) + Mul(u, Length(sqrt, b, f))
  {
    hide Mul, Length, IsRoot, Dist2, Dot, Lerp;
    var v, x, n, m := 1.0 - u, Lerp(a, b, u), Length(sqrt, a, f), Length(sqrt, b, f);
    LengthSquared(sqrt, x, f);
    LengthSquared(sqrt, a, f);
    LengthSquared(sqrt, b, f);
    CauchySchwarz(sqrt, a, b, f);
    LerpSquared(a, b, u, v, f);
    MulNotNegative(v, n);
    MulNotNegative(u, m);
    MulNotNegative(v, u);
    MulGrows(Mul(v, u), Dot(a, b, f), Mul(n, m));
    SquareOfSum(Mul(v, n), Mul(u, m));
    MulExchange(v, n, v, n);
    MulExchange(u, m, u, m);
    MulExchange(v, n, u, m);
    FromSquares(Length(sqrt, x, f), Mul(v, n) + Mul(u, m));
  }

  lemma LerpSquared(a: Pt, b: Pt, u: real, v: real, f: Pt)
    requires v == 1.0 - u
    ensures Dist2(Lerp(a, b, u), f)
         == Mul(Mul(v, v), Dist2(a, f)) + 2.0 * Mul(Mul(v, u), Dot(a, b, f)) + Mul(Mul(u, u), Dist2(b, f))
  {
    hide Mul, Dist2, Lerp;
    var x := Lerp(a, b, u);
    LerpIs(a, b, u);
    LerpAxis(a.x, b.x, u, f.x);
    LerpAxis(a.y, b.y, u, f.y);
    DistIsDot(x, f);
    DistIsDot(a, f);
    DistIsDot(b, f);
    AxisSquared(u, v, f.x - a.x, f.x - b.x);
    AxisSquared(u, v, f.y - a.y, f.y - b.y);
    MulSum(Mul(v, v), Mul(f.x - a.x, f.x - a.x), Mul(f.y - a.y, f.y - a.y));
    MulSum(Mul(u, u), Mul(f.x - b.x, f.x - b.x), Mul(f.y - b.y, f.y - b.y));
    MulSum(Mul(v, u), Mul(f.x - a.x, f.x - b.x), Mul(f.y - a.y, f.y - b.y));
  }

  lemma LerpAxis(a: real, b: real, u: real, f: real)
    ensures f - (a + Mul(b - a, u)) == Mul(1.0 - u, f - a) + Mul(u, f - b)
  {
    hide Mul;
    var p, q := f - a, f - b;
    MulMinus(p, 1.0, u);
    MulOne(p);
    MulMinus(u, p, q);
    MulCommutes(u, p);
    MulCommutes(u, q);
    assert b - a == p - q;
  }

  lemma LerpIs(a: Pt, b: Pt, u: real)
    ensures Lerp(a, b, u) == Pt.Pt(a.x + Mul(b.x - a.x, u), a.y + Mul(b.y - a.y, u))
  {
  }

  lemma AxisSquared(u: real, v: real, p: real, q: real)
    ensures var w := Mul(v, p) + Mul(u, q);
            Mul(w, w) ==
            Mul(Mul(v, v), Mul(p, p)) + 2.0 * Mul(Mul(v, u), Mul(p, q)) + Mul(Mul(u, u), Mul(q, q))
  {
    hide Mul;
    SquareOfSum(Mul(v, p), Mul(u, q));
    MulExchange(v, p, v, p);
    MulExchange(u, q, u, q);
    MulExchange(v, p, u, q);
  }

  lemma Triangle(sqrt: real -> real, p: Pt, q: Pt, r: Pt)
    requires IsRoot(sqrt)
    ensures Length(sqrt, p, r) <= Length(sqrt, p, q) + Length(sqrt, q, r)
  {
    hide Mul, Length, IsRoot, Dist2, Dot;
    // The point opposite to r across q, which is as far from q.
    var o := Pt.Pt(2.0 * q.x - r.x, 2.0 * q.y - r.y);
    var m, n := Length(sqrt, p, q), Length(sqrt, q, r);
    LengthSquared(sqrt, p, q);
    LengthSquared(sqrt, q, r);
    LengthSquared(sqrt, p, r);
    CauchySchwarz(sqrt, p, o, q);
    SameWay(sqrt, o, q, r);
    WaySquared(p, q, r, o);
    SquareOfSum(m, n);
    FromSquares(Length(sqrt, p, r), m + n);
  }

  lemma SameWay(sqrt: real -> real, o: Pt, q: Pt, r: Pt)
    requires o == Pt.Pt(2.0 * q.x - r.x, 2.0 * q.y - r.y)
    ensures Length(sqrt, o, q) == Length(sqrt, q, r)
  {
    hide Mul, Dist2;
    DistIsDot(q, o);
    DistIsDot(r, q);
    assert q.x - o.x == r.x - q.x && q.y - o.y == r.y - q.y;
    assert Dist2(q, o) == Dist2(r, q);
  }

  lemma WaySquared(p: Pt, q: Pt, r: Pt, o: Pt)
    requires o == Pt.Pt(2.0 * q.x - r.x, 2.0 * q.y - r.y)
    ensures Dist2(p, r) == Dist2(p, q) + 2.0 * Dot(p, o, q) + Dist2(q, r)
  {
    hide Mul, Dist2;
    DistIsDot(p, r);
    DistIsDot(p, q);
    DistIsDot(q, r);
    assert q.x - o.x == r.x - q.x && q.y - o.y == r.y - q.y;
    assert r.x - p.x == (q.x - p.x) + (r.x - q.x) && r.y - p.y == (q.y - p.y) + (r.y - q.y);
    SquareOfSum(q.x - p.x, r.x - q.x);
    SquareOfSum(q.y - p.y, r.y - q.y);
  }

  // ---------- Points near a chord ----------

  /** How long the way from p to q by way of x is. */
  function Detour(sqrt: real -> real, p: Pt, x: Pt, q: Pt): real { Length(sqrt, p, x) + Length(sqrt, x, q) }

  /** Some point of the chord from p to q is within half the root of `flat2` of x. */
  ghost predicate NearChord(x: Pt, p: Pt, q: Pt, flat2: real) {
    exists s :: 0.0 <= s <= 1.0 && 4.0 * Dist2(x, Lerp(p, q, s)) <= flat2
  }

  /** Where the points with a short detour are: the ellipse around the chord is thin. */
  lemma ShortDetourIsNear(sqrt: real -> real, p: Pt, x: Pt, q: Pt, long: real, flat2: real)
    requires IsRoot(sqrt) && Detour(sqrt, p, x, q) <= long
    requires Mul(long, long) - Dist2(p, q) <= flat2
    ensures NearChord(x, p, q, flat2)
  {
    hide Mul, Length, IsRoot, Dist2, Dot, Lerp, NearChord;
    var r1, r2, dd, w := Length(sqrt, p, x), Length(sqrt, x, q), Dist2(p, q), Dot(x, q, p);
    LengthSquared(sqrt, p, x);
    LengthSquared(sqrt, x, q);
    LengthSquared(sqrt, p, q);
    SquareOfSum(r1, r2);
    SquaresFollow(r1 + r2, long);
    FarSide(p, x, q);
    SquareNotNegative(Length(sqrt, p, q));
    if w <= 0.0 {
      FromSquares(r1, r2);
      MulGrows(r1, r1, r2);
      NearStart(x, p, q, flat2);
    } else if w >= dd {
      FromSquares(r2, r1);
      MulGrows(r2, r2, r1);
      NearEnd(x, p, q, flat2);
    } else {
      var s := w / dd;
      QuotientTimes(w, dd);
      FootOfPoint(p, x, q, s);
      DistIsNotNegative(x, Lerp(p, q, s));
      FractionParts(s, dd, w);
      var e := Mul(Mul(s, s), dd);
      WaysOverFoot(r1, r2, Dist2(x, Lerp(p, q, s)), e, e - 2.0 * w + dd, w - e);
      FractionInside(w, dd);
      NearAt(x, p, q, flat2, s);
    }
  }

  lemma SquaresFollow(x: real, y: real)
    requires 0.0 <= x <= y
    ensures Mul(x, x) <= Mul(y, y)
  {
    hide Mul;
    MulGrows(x, x, y);
    MulGrows(y, x, y);
  }

  lemma QuotientTimes(w: real, d: real)
    requires d > 0.0
    ensures Mul(w / d, d) == w
  {
  }

  lemma FractionInside(w: real, d: real)
    requires 0.0 <= w <= d && d > 0.0
    ensures 0.0 <= w / d <= 1.0
  {
  }

  lemma NearAt(x: Pt, p: Pt, q: Pt, flat2: real, s: real)
    requires 0.0 <= s <= 1.0 && 4.0 * Dist2(x, Lerp(p, q, s)) <= flat2
    ensures NearChord(x, p, q, flat2)
  {
    hide Dist2, Lerp;
  }

  lemma NearStart(x: Pt, p: Pt, q: Pt, flat2: real)
    requires 4.0 * Dist2(p, x) <= flat2
    ensures NearChord(x, p, q, flat2)
  {
    assert Lerp(p, q, 0.0) == p;
    DistIsDot(p, x);
    NearAt(x, p, q, flat2, 0.0);
  }

  lemma NearEnd(x: Pt, p: Pt, q: Pt, flat2: real)
    requires 4.0 * Dist2(x, q) <= flat2
    ensures NearChord(x, p, q, flat2)
  {
    assert Lerp(p, q, 1.0) == q;
    NearAt(x, p, q, flat2, 1.0);
  }

  /** The squared distances to both ends, by the law of cosines. */
  lemma FarSide(p: Pt, x: Pt, q: Pt)
    ensures Dist2(x, q) == Dist2(p, x) - 2.0 * Dot(x, q, p) + Dist2(p, q)
  {
    hide Mul, Dist2;
    DistIsDot(x, q);
    DistIsDot(p, x);
    DistIsDot(p, q);
    assert q.x - x.x == (p.x - x.x) - (p.x - q.x) && q.y - x.y == (p.y - x.y) - (p.y - q.y);
    SquareOfDifference(p.x - x.x, p.x - q.x);
    SquareOfDifference(p.y - x.y, p.y - q.y);
  }

  /** The perpendicular from x meets the chord at the fraction s. */
  lemma FootOfPoint(p: Pt, x: Pt, q: Pt, s: real)
    requires Mul(s, Dist2(p, q)) == Dot(x, q, p)
    ensures Dist2(x, Lerp(p, q, s)) == Dist2(p, x) - Mul(Mul(s, s), Dist2(p, q))
  {
    hide Mul, Dist2, Lerp, Dot;
    var v, y := 1.0 - s, Lerp(p, q, s);
    LerpSquared(p, q, s, v, x);
    DistIsDot(x, y);
    DistIsDot(x, p);
    DistIsDot(q, x);
    DistIsDot(p, x);
    FarSide(p, x, q);
    BetweenWays(p, q, x);
    SplitFraction(s, v, Dist2(p, x), Dist2(p, q), Dot(x, q, p));
  }

  lemma MulAssociates(x: real, y: real, z: real)
    ensures Mul(x, Mul(y, z)) == Mul(Mul(x, y), z)
  {
  }

  lemma SplitFraction(s: real, v: real, a: real, d: real, w: real)
    requires v == 1.0 - s && Mul(s, d) == w
    ensures Mul(Mul(v, v), a) + 2.0 * Mul(Mul(v, s), a - w) + Mul(Mul(s, s), a - 2.0 * w + d)
         == a - Mul(Mul(s, s), d)
  {
    hide Mul;
    var vv, vs, ss := Mul(v, v), Mul(v, s), Mul(s, s);
    SquareOfSum(v, s);
    MulOne(1.0);
    MulOne(a);
    MulOne(s);
    MulSum(a, vv + 2.0 * vs, ss);
    MulSum(a, vv, 2.0 * vs);
    MulSum(a, vs, vs);
    MulMinus(vs, a, w);
    MulSum(ss, a - 2.0 * w, d);
    MulMinus(ss, a, 2.0 * w);
    MulSum(ss, w, w);
    MulSum(w, vs, ss);
    MulSum(s, v, s);
    MulAssociates(s, s, d);
    assert vs + ss == s && vv + 2.0 * vs + ss == 1.0;
  }

  /** The parts into which the foot divides the chord: their products with the chord. */
  lemma FractionParts(s: real, d: real, w: real)
    requires w == Mul(s, d) && d >= 0.0
    ensures var e := Mul(Mul(s, s), d);
            var g, k := e - 2.0 * w + d, w - e;
            Mul(k, k) == Mul(e, g) && e + g - 2.0 * k >= 0.0
  {
    hide Mul;
    var v, x := 1.0 - s, d - w;
    var e := Mul(Mul(s, s), d);
    MulMinus(d, 1.0, s);
    MulOne(d);
    MulOne(w);
    MulOne(x);
    MulAssociates(s, s, d);
    MulMinus(w, 1.0, s);
    MulMinus(s, d, w);
    MulMinus(x, 1.0, s);
    MulExchange(v, w, s, x);
    MulExchange(s, w, v, x);
    MulCommutes(v, s);
    assert w - e == Mul(v, w) == Mul(s, x) && e - 2.0 * w + d == Mul(v, x);
    MulMinus(s - v, w, x);
    MulMinus(w, s, v);
    MulMinus(x, s, v);
    MulMinus(d, s, v);
    MulAssociates(s - v, s - v, d);
    SquareNotNegative(s - v);
    MulNotNegative(Mul(s - v, s - v), d);
  }

  /** Two ways over a foot at squared height h are at least as long as over the foot in the middle. */
  lemma WaysOverFoot(r1: real, r2: real, h: real, e: real, g: real, k: real)
    requires r1 >= 0.0 && r2 >= 0.0 && h >= 0.0
    requires Mul(r1, r1) == h + e && Mul(r2, r2) == h + g
    requires Mul(k, k) == Mul(e, g) && e + g - 2.0 * k >= 0.0
    ensures 4.0 * h + e + g + 2.0 * k <= Mul(r1 + r2, r1 + r2)
  {
    hide Mul;
    SquareOfSum(r1, r2);
    SquareOfSum(h, k);
    MulExchange(r1, r2, r1, r2);
    MulSum(h + e, h, g);
    MulSum(h, h, e);
    MulSum(g, h, e);
    MulCommutes(e, h);
    MulCommutes(g, h);
    MulNotNegative(h, e + g - 2.0 * k);
    MulMinus(h, e + g, 2.0 * k);
    MulSum(h, e, g);
    MulSum(h, k, k);
    MulNotNegative(r1, r2);
    FromSquares(h + k, Mul(r1, r2));
  }

  lemma DistIsNotNegative(p: Pt, q: Pt)
    ensures Dist2(p, q) >= 0.0
  {
    hide Mul, Dist2;
    DistIsDot(p, q);
    SquareNotNegative(q.x - p.x);
    SquareNotNegative(q.y - p.y);
  }

  /** The inner product at x by the squared sides. */
  lemma BetweenWays(p: Pt, q: Pt, x: Pt)
    ensures 2.0 * Dot(p, q, x) == Dist2(p, x) + Dist2(x, q) - Dist2(p, q)
  {
    hide Mul, Dist2;
    DistIsDot(x, q);
    DistIsDot(p, x);
    DistIsDot(q, p);
    assert q.x - p.x == (x.x - p.x) - (x.x - q.x) && q.y - p.y == (x.y - p.y) - (x.y - q.y);
    SquareOfDifference(x.x - p.x, x.x - q.x);
    SquareOfDifference(x.y - p.y, x.y - q.y);
  }

  // ---------- The curve inside the ellipse ----------

  lemma Symmetric(sqrt: real -> real, p: Pt, q: Pt)
    ensures Length(sqrt, p, q) == Length(sqrt, q, p)
  {
    hide Dist2;
    DistIsDot(p, q);
  }

  /** Where the detour is short is convex. */
  lemma LerpDetour(sqrt: real -> real, p: Pt, q: Pt, a: Pt, b: Pt, u: real, long: real)
    requires IsRoot(sqrt) && 0.0 <= u <= 1.0
    requires Detour(sqrt, p, a, q) <= long && Detour(sqrt, p, b, q) <= long
    ensures Detour(sqrt, p, Lerp(a, b, u), q) <= long
  {
    hide Mul, Length, IsRoot, Lerp;
    var x, v := Lerp(a, b, u), 1.0 - u;
    Symmetric(sqrt, p, x);
    Symmetric(sqrt, p, a);
    Symmetric(sqrt, p, b);
    LerpDistance(sqrt, a, b, u, p);
    LerpDistance(sqrt, a, b, u, q);
    MulSum(v, Length(sqrt, a, p), Length(sqrt, a, q));
    MulSum(u, Length(sqrt, b, p), Length(sqrt, b, q));
    MulGrows(v, Detour(sqrt, p, a, q), long);
    MulGrows(u, Detour(sqrt, p, b, q), long);
    MulSum(long, v, u);
    MulOne(long);
  }

  /** The length of the control polygon. */
  function Polygon(sqrt: real -> real, p0: Pt, p1: Pt, p2: Pt, p3: Pt): real {
    Length(sqrt, p0, p1) + Length(sqrt, p1, p2) + Length(sqrt, p2, p3)
  }

  lemma ZeroLength(sqrt: real -> real, p: Pt)
    requires IsRoot(sqrt)
    ensures Length(sqrt, p, p) == 0.0
  {
    LengthSquared(sqrt, p, p);
    assert Dist2(p, p) == 0.0;
    hide Length, IsRoot, Dist2;
    MulOne(0.0);
    var n := Length(sqrt, p, p);
    hide Mul;
    FromSquares(n, 0.0);
  }

  lemma ControlDetours(sqrt: real -> real, p0: Pt, p1: Pt, p2: Pt, p3: Pt)
    requires IsRoot(sqrt)
    ensures var long := Polygon(sqrt, p0, p1, p2, p3);
            && Detour(sqrt, p0, p0, p3) <= long && Detour(sqrt, p0, p1, p3) <= long
            && Detour(sqrt, p0, p2, p3) <= long && Detour(sqrt, p0, p3, p3) <= long
  {
    hide Length, IsRoot;
    ZeroLength(sqrt, p0);
    ZeroLength(sqrt, p3);
    Triangle(sqrt, p0, p1, p3);
    Triangle(sqrt, p1, p2, p3);
    Triangle(sqrt, p0, p1, p2);
  }

  function Along(a: real, b: real, t: real): real { a + Mul(b - a, t) }

  /** Two interpolations of three points. */
  lemma AlongTwice(a: real, b: real, c: real, e: real, f: real, t: real)
    requires e == b - a && f == a - 2.0 * b + c
    ensures Along(Along(a, b, t), Along(b, c, t), t) == a + 2.0 * Mul(e, t) + Mul(Mul(f, t), t)
  {
    hide Mul;
    assert c - b == e + f;
    MulSum(t, e, f);
    assert Along(b, c, t) - Along(a, b, t) == e + Mul(f, t);
    MulSum(t, e, Mul(f, t));
  }

  /** The curve by repeated interpolation between its control points, along one axis. */
  lemma AxisCasteljau(a: real, b: real, c: real, d: real, t: real)
    ensures var ab, bc, cd := Along(a, b, t), Along(b, c, t), Along(c, d, t);
            Bez3(a, b, c, d, t) == Along(Along(ab, bc, t), Along(bc, cd, t), t)
  {
    hide Mul, Bez3;
    var e, f, g := b - a, a - 2.0 * b + c, d - 3.0 * c + 3.0 * b - a;
    PowersAreProducts(a, b, c, d, e, f, g, t);
    AlongTwice(a, b, c, e, f, t);
    AlongTwice(b, c, d, e + f, f + g, t);
    MulSum(t, e, f);
    MulSum(t, f, g);
    MulSum(t, Mul(f, t), Mul(g, t));
    ThirdStep(Along(Along(a, b, t), Along(b, c, t), t), Along(Along(b, c, t), Along(c, d, t), t),
              e, Mul(f, t), Mul(Mul(g, t), t), t);
  }

  lemma ThirdStep(q: real, r: real, e: real, ft: real, gtt: real, t: real)
    requires r - q == e + 2.0 * ft + gtt
    ensures Along(q, r, t) == q + Mul(e, t) + 2.0 * Mul(ft, t) + Mul(gtt, t)
  {
    hide Mul;
    MulSum(t, e + 2.0 * ft, gtt);
    MulSum(t, e, 2.0 * ft);
    MulSum(t, ft, ft);
  }

  lemma PowersAreProducts(a: real, b: real, c: real, d: real, e: real, f: real, g: real, t: real)
    requires e == b - a && f == a - 2.0 * b + c && g == d - 3.0 * c + 3.0 * b - a
    ensures Bez3(a, b, c, d, t) == a + 3.0 * Mul(e, t) + 3.0 * Mul(Mul(f, t), t) + Mul(Mul(Mul(g, t), t), t)
  {
    hide Bez3, Grown, Mul;
    ByDifferences(a, b, c, d, e, f, g, t);
    GrownIs(e, f, g, t);
  }

  lemma GrownIs(e: real, f: real, g: real, t: real)
    ensures Grown(e, f, g, t) == 3.0 * Mul(e, t) + 3.0 * Mul(Mul(f, t), t) + Mul(Mul(Mul(g, t), t), t)
  {
    assert 3.0 * e * t == 3.0 * Mul(e, t);
    assert 3.0 * f * t * t == 3.0 * Mul(Mul(f, t), t);
  }

  lemma Casteljau(p0: Pt, p1: Pt, p2: Pt, p3: Pt, t: real)
    ensures var a, b, c := Lerp(p0, p1, t), Lerp(p1, p2, t), Lerp(p2, p3, t);
            Cubic(p0, p1, p2, p3, t) == Lerp(Lerp(a, b, t), Lerp(b, c, t), t)
  {
    hide Mul, Bez3, Lerp;
    var a, b, c := Lerp(p0, p1, t), Lerp(p1, p2, t), Lerp(p2, p3, t);
    LerpIs(p0, p1, t);
    LerpIs(p1, p2, t);
    LerpIs(p2, p3, t);
    LerpIs(a, b, t);
    LerpIs(b, c, t);
    LerpIs(Lerp(a, b, t), Lerp(b, c, t), t);
    AxisCasteljau(p0.x, p1.x, p2.x, p3.x, t);
    AxisCasteljau(p0.y, p1.y, p2.y, p3.y, t);
  }

  /** The way by any point of the curve is no longer than the control polygon. */
  lemma CurveDetour(sqrt: real -> real, p0: Pt, p1: Pt, p2: Pt, p3: Pt, t: real)
    requires IsRoot(sqrt) && 0.0 <= t <= 1.0
    ensures Detour(sqrt, p0, Cubic(p0, p1, p2, p3, t), p3) <= Polygon(sqrt, p0, p1, p2, p3)
  {
    ControlDetours(sqrt, p0, p1, p2, p3);
    Casteljau(p0, p1, p2, p3, t);
    hide Detour, IsRoot, Lerp, Cubic, Polygon;
    var long := Polygon(sqrt, p0, p1, p2, p3);
    var a, b, c := Lerp(p0, p1, t), Lerp(p1, p2, t), Lerp(p2, p3, t);
    LerpDetour(sqrt, p0, p3, p0, p1, t, long);
    LerpDetour(sqrt, p0, p3, p1, p2, t, long);
    LerpDetour(sqrt, p0, p3, p2, p3, t, long);
    LerpDetour(sqrt, p0, p3, a, b, t, long);
    LerpDetour(sqrt, p0, p3, b, c, t, long);
    LerpDetour(sqrt, p0, p3, Lerp(a, b, t), Lerp(b, c, t), t, long);
  }

  lemma FlatnessIs(sqrt: real -> real, p0: Pt, p1: Pt, p2: Pt, p3: Pt)
    requires IsRoot(sqrt)
    ensures var long := Polygon(sqrt, p0, p1, p2, p3);
            Flatness(sqrt, p0, p1, p2, p3) == Mul(long, long) - Dist2(p0, p3)
  {
    hide Length, IsRoot, Dist2, Mul;
    LengthSquared(sqrt, p0, p3);
    SquaresAreProducts(sqrt, p0, p1, p2, p3);
  }

  lemma SquaresAreProducts(sqrt: real -> real, p0: Pt, p1: Pt, p2: Pt, p3: Pt)
    ensures var long, short := Polygon(sqrt, p0, p1, p2, p3), Length(sqrt, p0, p3);
            Flatness(sqrt, p0, p1, p2, p3) == Mul(long, long) - Mul(short, short)
  {
    hide Length;
  }

  /** A piece that passes the flatness test lies within half the tolerance of its chord. */
  lemma FlatPieceIsNear(sqrt: real -> real, p0: Pt, p1: Pt, p2: Pt, p3: Pt, flat2: real, t: real)
    requires IsRoot(sqrt) && 0.0 <= t <= 1.0 && Flatness(sqrt, p0, p1, p2, p3) <= flat2
    ensures NearChord(Cubic(p0, p1, p2, p3, t), p0, p3, flat2)
  {
    hide *;
    FlatnessIs(sqrt, p0, p1, p2, p3);
    CurveDetour(sqrt, p0, p1, p2, p3, t);
    ShortDetourIsNear(sqrt, p0, Cubic(p0, p1, p2, p3, t), p3, Polygon(sqrt, p0, p1, p2, p3), flat2);
  }

  // ---------- The whole curve ----------

  /** No piece of the curve runs into the depth limit before it passes the flatness test. */
  predicate Complete(sqrt: real -> real, p0: Pt, p1: Pt, p2: Pt, p3: Pt, flat2: real, n: nat)
    decreases MAX_DEPTH + 1 - n
  {
    && n <= MAX_DEPTH
    && (Flatness(sqrt, p0, p1, p2, p3) <= flat2
        || var h := Halve(p0, p1, p2, p3);
           Complete(sqrt, p0, h.p01, h.pa, h.m, flat2, n + 1) && Complete(sqrt, h.m, h.pb, h.p23, p3, flat2, n + 1))
  }

  ghost predicate NearPolyline(x: Pt, points: seq<Pt>, flat2: real) {
    exists i :: 0 <= i < |points| - 1 && NearChord(x, points[i], points[i + 1], flat2)
  }

  lemma {:induction false} CompleteEnds(sqrt: real -> real, p0: Pt, p1: Pt, p2: Pt, p3: Pt, flat2: real, n: nat)
    requires Complete(sqrt, p0, p1, p2, p3, flat2, n)
    ensures var ps := TessCubic(sqrt, p0, p1, p2, p3, flat2, n); ps != [] && ps[|ps| - 1] == p3
    decreases MAX_DEPTH + 1 - n
  {
    hide Flatness, Halve, TessCubic;
    TessCubicStep(sqrt, p0, p1, p2, p3, flat2, n);
    if Flatness(sqrt, p0, p1, p2, p3) > flat2 {
      var h := Halve(p0, p1, p2, p3);
      CompleteEnds(sqrt, h.m, h.pb, h.p23, p3, flat2, n + 1);
    }
  }

  /** The polyline of a piece is part of the polyline of the whole. */
  lemma NearLonger(x: Pt, front: seq<Pt>, points: seq<Pt>, back: seq<Pt>, flat2: real)
    requires NearPolyline(x, points, flat2)
    ensures NearPolyline(x, front + points + back, flat2)
  {
    hide NearChord;
    var all := front + points + back;
    var i :| 0 <= i < |points| - 1 && NearChord(x, points[i], points[i + 1], flat2);
    var j := |front| + i;
    assert all[j] == points[i] && all[j + 1] == points[i + 1];
  }

  /** If no piece runs into the depth limit, the whole curve is within half the tolerance of the polyline
      from its start through the emitted points. */
  lemma {:induction false} CubicWithinTolerance(sqrt: real -> real, p0: Pt, p1: Pt, p2: Pt, p3: Pt, flat2: real,
                                                n: nat, t: real)
    requires IsRoot(sqrt) && 0.0 <= t <= 1.0 && Complete(sqrt, p0, p1, p2, p3, flat2, n)
    ensures NearPolyline(Cubic(p0, p1, p2, p3, t), [p0] + TessCubic(sqrt, p0, p1, p2, p3, flat2, n), flat2)
    decreases MAX_DEPTH + 1 - n
  {
    hide Flatness, Halve, TessCubic, Cubic, NearChord, IsRoot, NearPolyline;
    TessCubicStep(sqrt, p0, p1, p2, p3, flat2, n);
    var x := Cubic(p0, p1, p2, p3, t);
    if Flatness(sqrt, p0, p1, p2, p3) <= flat2 {
      FlatPieceIsNear(sqrt, p0, p1, p2, p3, flat2, t);
      NearOneChord(x, p0, p3, flat2);
      assert [p0] + [p3] == [p0, p3];
    } else {
      var h := Halve(p0, p1, p2, p3);
      var left := TessCubic(sqrt, p0, h.p01, h.pa, h.m, flat2, n + 1);
      var right := TessCubic(sqrt, h.m, h.pb, h.p23, p3, flat2, n + 1);
      if t <= 0.5 {
        HalvesCubic(p0, p1, p2, p3, 2.0 * t);
        CubicWithinTolerance(sqrt, p0, h.p01, h.pa, h.m, flat2, n + 1, 2.0 * t);
        NearLonger(x, [], [p0] + left, right, flat2);
        assert [] + ([p0] + left) + right == [p0] + (left + right);
      } else {
        HalvesCubic(p0, p1, p2, p3, 2.0 * t - 1.0);
        CubicWithinTolerance(sqrt, h.m, h.pb, h.p23, p3, flat2, n + 1, 2.0 * t - 1.0);
        CompleteEnds(sqrt, p0, h.p01, h.pa, h.m, flat2, n + 1);
        var front := left[..|left| - 1];
        NearLonger(x, [p0] + front, [h.m] + right, [], flat2);
        assert left == front + [h.m];
        assert [p0] + front + ([h.m] + right) + [] == [p0] + (left + right);
      }
    }
  }

  lemma NearOneChord(x: Pt, p: Pt, q: Pt, flat2: real)
    requires NearChord(x, p, q, flat2)
    ensures NearPolyline(x, [p, q], flat2)
  {
    hide NearChord;
    var points := [p, q];
    assert points[0] == p && points[0 + 1] == q;
  }

  // ---------- Curves that are never flat ----------

  /** Twice the signed area between two steps of the control polygon. */
  function Turn(p0: Pt, p1: Pt, p2: Pt): real {
    Mul(p1.x - p0.x, p2.y - p1.y) - Mul(p1.y - p0.y, p2.x - p1.x)
  }

  /** A parabola that is not a straight line, as a cubic. */
  predicate Bent(p0: Pt, p1: Pt, p2: Pt, p3: Pt) {
    && p3.x - 3.0 * p2.x + 3.0 * p1.x - p0.x == 0.0 && p3.y - 3.0 * p2.y + 3.0 * p1.y - p0.y == 0.0
    && Turn(p0, p1, p2) != 0.0
  }

  lemma HalfTimesQuarter(x: real, y: real)
    ensures Mul(x / 2.0, y / 4.0) == Mul(x, y) / 8.0
  {
  }

  lemma MulTriple(x: real, y: real)
    ensures Mul(3.0 * x, y) == 3.0 * Mul(x, y) && Mul(x, 3.0 * y) == 3.0 * Mul(x, y)
  {
  }

  /** Both halves of a bent curve are bent. */
  lemma HalvesBent(p0: Pt, p1: Pt, p2: Pt, p3: Pt)
    requires Bent(p0, p1, p2, p3)
    ensures var h := Halve(p0, p1, p2, p3); Bent(p0, h.p01, h.pa, h.m) && Bent(h.m, h.pb, h.p23, p3)
  {
    hide Mul;
    var h := Halve(p0, p1, p2, p3);
    var ux, uy, vx, vy := p1.x - p0.x, p1.y - p0.y, p2.x - p1.x, p2.y - p1.y;
    assert h.p01.x - p0.x == ux / 2.0 && h.p01.y - p0.y == uy / 2.0;
    assert h.pa.x - h.p01.x == (ux + vx) / 4.0 && h.pa.y - h.p01.y == (uy + vy) / 4.0;
    assert h.pb.x - h.m.x == vx / 2.0 && h.pb.y - h.m.y == vy / 2.0;
    assert h.p23.x - h.pb.x == (3.0 * vx - ux) / 4.0 && h.p23.y - h.pb.y == (3.0 * vy - uy) / 4.0;
    HalfTimesQuarter(ux, uy + vy);
    HalfTimesQuarter(uy, ux + vx);
    HalfTimesQuarter(vx, 3.0 * vy - uy);
    HalfTimesQuarter(vy, 3.0 * vx - ux);
    MulSum(ux, uy, vy);
    MulSum(uy, ux, vx);
    MulMinus(vx, 3.0 * vy, uy);
    MulMinus(vy, 3.0 * vx, ux);
    MulTriple(vx, vy);
    MulTriple(vy, vx);
    MulCommutes(ux, uy);
    MulCommutes(vx, vy);
    MulCommutes(ux, vy);
    MulCommutes(uy, vx);
  }

  lemma ZeroDistance(p: Pt, q: Pt)
    requires Dist2(p, q) <= 0.0
    ensures p == q
  {
    hide Mul, Dist2;
    DistIsDot(q, p);
    var dx, dy := p.x - q.x, p.y - q.y;
    SquareNotNegative(dx);
    SquareNotNegative(dy);
    ZeroSquare(dx);
    ZeroSquare(dy);
  }

  lemma ZeroSquare(x: real)
    ensures Mul(x, x) <= 0.0 ==> x == 0.0
  {
    hide Mul;
    SquareOfOpposite(x, 0.0);
    if x > 0.0 { MulPositive(x, x); }
    if x < 0.0 { MulPositive(-x, -x); }
  }

  /** With a control point on its chord the curve is straight. */
  lemma OnChordIsStraight(p0: Pt, p1: Pt, p2: Pt, p3: Pt, s: real)
    requires p3.x - 3.0 * p2.x + 3.0 * p1.x - p0.x == 0.0 && p3.y - 3.0 * p2.y + 3.0 * p1.y - p0.y == 0.0
    requires p1 == Lerp(p0, p3, s)
    ensures Turn(p0, p1, p2) == 0.0
  {
    hide Mul, Lerp;
    LerpIs(p0, p3, s);
    var vx, vy := p2.x - p1.x, p2.y - p1.y;
    assert p3.x - p0.x == 3.0 * vx && p3.y - p0.y == 3.0 * vy;
    MulTriple(vx, s);
    MulTriple(vy, s);
    MulTriple(Mul(vx, s), vy);
    MulTriple(Mul(vy, s), vx);
    MulCommutes(vx, s);
    MulCommutes(vy, s);
    MulAssociates(s, vx, vy);
    MulAssociates(s, vy, vx);
    MulCommutes(vx, vy);
  }

  lemma BentIsNotFlat(sqrt: real -> real, p0: Pt, p1: Pt, p2: Pt, p3: Pt)
    requires IsRoot(sqrt) && Bent(p0, p1, p2, p3)
    ensures Flatness(sqrt, p0, p1, p2, p3) > 0.0
  {
    hide Mul, Flatness, Detour, IsRoot, Polygon, Dist2, Lerp, Turn;
    FlatnessIs(sqrt, p0, p1, p2, p3);
    ControlDetours(sqrt, p0, p1, p2, p3);
    if Flatness(sqrt, p0, p1, p2, p3) <= 0.0 {
      ShortDetourIsNear(sqrt, p0, p1, p3, Polygon(sqrt, p0, p1, p2, p3), 0.0);
      var s :| 0.0 <= s <= 1.0 && 4.0 * Dist2(p1, Lerp(p0, p3, s)) <= 0.0;
      ZeroDistance(p1, Lerp(p0, p3, s));
      OnChordIsStraight(p0, p1, p2, p3, s);
    }
  }

  /** With no tolerance a bent curve is dropped altogether, since no piece of it is ever flat enough. */
  lemma {:induction false} BentVanishes(sqrt: real -> real, p0: Pt, p1: Pt, p2: Pt, p3: Pt, flat2: real, n: nat)
    requires IsRoot(sqrt) && Bent(p0, p1, p2, p3) && flat2 <= 0.0
    ensures TessCubic(sqrt, p0, p1, p2, p3, flat2, n) == []
    decreases MAX_DEPTH + 1 - n
  {
    hide Flatness, Halve, TessCubic, IsRoot, Bent;
    TessCubicStep(sqrt, p0, p1, p2, p3, flat2, n);
    BentIsNotFlat(sqrt, p0, p1, p2, p3);
    if n <= MAX_DEPTH {
      var h := Halve(p0, p1, p2, p3);
      HalvesBent(p0, p1, p2, p3);
      BentVanishes(sqrt, p0, h.p01, h.pa, h.m, flat2, n + 1);
      BentVanishes(sqrt, h.m, h.pb, h.p23, p3, flat2, n + 1);
    }
  }

  /** For instance. */
  lemma CubicVanishes(sqrt: real -> real)
    requires IsRoot(sqrt)
    ensures TessCubic(sqrt, Pt.Pt(0.0, 0.0), Pt.Pt(1.0, 0.0), Pt.Pt(2.0, 1.0), Pt.Pt(3.0, 3.0), 0.0, 0) == []
  {
    assert Mul(1.0, 1.0) == 1.0 && Mul(0.0, 1.0) == 0.0;
    hide TessCubic, Mul, IsRoot;
    BentVanishes(sqrt, Pt.Pt(0.0, 0.0), Pt.Pt(1.0, 0.0), Pt.Pt(2.0, 1.0), Pt.Pt(3.0, 3.0), 0.0, 0);
  }
}
