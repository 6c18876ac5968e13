/** What the point array holds for each vertex of an outline: the vertex's own line or curve, sampled closely
    enough, from where the vertex before it ends. */
module FlattenedOutline {
  import opened GlyphOutline
  import opened CurveTessellation
  import opened CubicTessellation
  import opened CubicDistance
  import opened CurveFlattening

  // ---------- The curves, in Bernstein form ----------

  function Bernstein2(a: real, b: real, c: real, t: real): real {
    (1.0 - t) * (1.0 - t) * a + 2.0 * (1.0 - t) * t * b + t * t * c
  }

  function Bernstein3(a: real, b: real, c: real, d: real, t: real): real {
    (1.0 - t) * (1.0 - t) * (1.0 - t) * a + 3.0 * (1.0 - t) * (1.0 - t) * t * b + 3.0 * (1.0 - t) * t * t * c
    + t * t * t * d
  }

  /** Where vertex i starts: at the end of the one before it, or at the origin. */
  function Start(vs: seq<Vertex>, i: nat): Pt
    requires i < |vs|
  {
    if i == 0 then Pt.Pt(0.0, 0.0) else Pt.Pt(vs[i - 1].x as real, vs[i - 1].y as real)
  }

  function QuadraticAt(from: Pt, v: Vertex, t: real): Pt {
    Pt.Pt(Bernstein2(from.x, v.cx as real, v.x as real, t), Bernstein2(from.y, v.cy as real, v.y as real, t))
  }

  function CubicAt(from: Pt, v: Vertex, t: real): Pt {
    Pt.Pt(Bernstein3(from.x, v.cx as real, v.cx1 as real, v.x as real, t),
          Bernstein3(from.y, v.cy as real, v.cy1 as real, v.y as real, t))
  }

  // ---------- The part of a vertex ----------

  /** Where the points of vertex i begin. */
  function Offset(style: Style, vs: seq<Vertex>, i: nat): nat
    requires i <= |vs|
  {
    |Points(style, vs[..i])|
  }

  lemma {:induction false} PrefixPoints(style: Style, vs: seq<Vertex>, i: nat)
    requires i <= |vs|
    ensures Points(style, vs[..i]) <= Points(style, vs)
    decreases |vs|
  {
    hide Piece;
    if i < |vs| {
      var front := vs[..|vs| - 1];
      assert front[..i] == vs[..i];
      PrefixPoints(style, front, i);
    } else {
      assert vs[..i] == vs;
    }
  }

  /** The points of vertex i, which are all the points between those of the vertices before and after it. */
  function Part(style: Style, vs: seq<Vertex>, i: nat): seq<Pt>
    requires i < |vs|
  {
    PrefixPoints(style, vs, i);
    PrefixPoints(style, vs, i + 1);
    PrefixPoints(style, vs[..i + 1], i);
    assert vs[..i + 1][..i] == vs[..i];
    Points(style, vs)[Offset(style, vs, i)..Offset(style, vs, i + 1)]
  }

  lemma PartIs(style: Style, vs: seq<Vertex>, i: nat)
    requires i < |vs|
    ensures Part(style, vs, i) == Piece(style, Start(vs, i), vs[i])
  {
    hide Piece, Points;
    PrefixPoints(style, vs, i);
    PrefixPoints(style, vs, i + 1);
    assert vs[..i + 1] == vs[..i] + [vs[i]];
    LengthsSnoc(style, vs[..i], vs[i]);
    if i > 0 { assert vs[..i][i - 1] == vs[i - 1]; }
    var before, piece := Points(style, vs[..i]), Piece(style, Pen(vs[..i]), vs[i]);
    assert (before + piece)[|before|..] == piece;
  }

  /** The parts make up the point array. */
  lemma PartsMakeUpPoints(style: Style, vs: seq<Vertex>)
    ensures Offset(style, vs, 0) == 0 && Offset(style, vs, |vs|) == |Points(style, vs)|
    ensures forall i | 0 <= i < |vs| :: Offset(style, vs, i + 1) == Offset(style, vs, i) + |Part(style, vs, i)|
  {
    hide Piece, Points, Part;
    NoVertices(style);
    assert vs[..|vs|] == vs && vs[..0] == [];
    forall i | 0 <= i < |vs|
      ensures Offset(style, vs, i + 1) == Offset(style, vs, i) + |Part(style, vs, i)|
    {
      PartSize(style, vs, i);
    }
  }

  lemma PartSize(style: Style, vs: seq<Vertex>, i: nat)
    requires i < |vs|
    ensures Offset(style, vs, i + 1) == Offset(style, vs, i) + |Part(style, vs, i)|
  {
    hide Piece, Points;
    PrefixPoints(style, vs, i);
    PrefixPoints(style, vs, i + 1);
    PrefixPoints(style, vs[..i + 1], i);
    assert vs[..i + 1][..i] == vs[..i];
  }

  /** Moves and lines add their end. */
  lemma StraightPart(style: Style, vs: seq<Vertex>, i: nat)
    requires i < |vs| && (vs[i].kind.VMove? || vs[i].kind.VLine?)
    ensures Part(style, vs, i) == [Pt.Pt(vs[i].x as real, vs[i].y as real)]
  {
    PartIs(style, vs, i);
  }

  // ---------- Quadratic curves ----------

  lemma CurveIsQuadratic(from: Pt, v: Vertex, t: real)
    ensures Curve(from, At(v.cx, v.cy), At(v.x, v.y), t) == QuadraticAt(from, v, t)
  {
    BezIsBernstein(from.x, v.cx as real, v.x as real, t);
    BezIsBernstein(from.y, v.cy as real, v.y as real, t);
    hide Bez;
  }

  /** A quadratic curve adds its points at equal steps of the parameter, the last one its end. */
  lemma QuadraticPart(style: Style, vs: seq<Vertex>, i: nat, m: nat)
    requires i < |vs| && vs[i].kind.VCurve? && m < |Part(style, vs, i)|
    ensures var part := Part(style, vs, i);
            && part[m] == QuadraticAt(Start(vs, i), vs[i], (m + 1) as real / |part| as real)
            && part[|part| - 1] == Pt.Pt(vs[i].x as real, vs[i].y as real)
  {
    var from, v := Start(vs, i), vs[i];
    var k := Levels(Deviation(from, At(v.cx, v.cy), At(v.x, v.y)), style.flat2, MAX_DEPTH + 1);
    PartIs(style, vs, i);
    TessIsUniform(from, At(v.cx, v.cy), At(v.x, v.y), style.flat2, 0);
    hide Tess, Deviation, Levels, Curve, QuadraticAt, Part;
    var part := Part(style, vs, i);
    CurveIsQuadratic(from, v, (m + 1) as real / |part| as real);
    CurveIsQuadratic(from, v, 1.0);
    WholeIsOne(|part|);
    QuadraticEnds(from, v);
  }

  lemma WholeIsOne(n: nat)
    requires n > 0
    ensures n as real / n as real == 1.0
  {
  }

  lemma QuadraticEnds(from: Pt, v: Vertex)
    ensures QuadraticAt(from, v, 1.0) == Pt.Pt(v.x as real, v.y as real)
  {
  }

  /** The polyline through these points is within the tolerance of the whole curve. */
  lemma QuadraticPartIsNear(style: Style, vs: seq<Vertex>, i: nat, m: nat, u: real)
    requires i < |vs| && vs[i].kind.VCurve? && m < |Part(style, vs, i)| && style.flat2 >= 0.0 && 0.0 <= u <= 1.0
    ensures var part := Part(style, vs, i);
            var polyline := [Start(vs, i)] + part;
            Dist2(Lerp(polyline[m], polyline[m + 1], u),
                  QuadraticAt(Start(vs, i), vs[i], (m as real + u) / |part| as real)) <= style.flat2
  {
    var from, v := Start(vs, i), vs[i];
    PartIs(style, vs, i);
    hide Tess, Curve, QuadraticAt, Part, Dist2, Lerp;
    TessWithinTolerance(from, At(v.cx, v.cy), At(v.x, v.y), style.flat2, m, u);
    CurveIsQuadratic(from, v, (m as real + u) / |Part(style, vs, i)| as real);
  }

  /** How far a curve is from a straight line, as the square of its second difference. */
  function Bend2(from: Pt, v: Vertex): real {
    var x, y := from.x - 2.0 * v.cx as real + v.x as real, from.y - 2.0 * v.cy as real + v.y as real;
    x * x + y * y
  }

  /** There are such points exactly when the curve is not bent by more than the depth limit allows for. */
  lemma QuadraticPartIsThere(style: Style, vs: seq<Vertex>, i: nat)
    requires i < |vs| && vs[i].kind.VCurve? && style.flat2 >= 0.0
    ensures Part(style, vs, i) != [] <==> Bend2(Start(vs, i), vs[i]) <= 16.0 * (Pow16(16) * style.flat2)
  {
    hide *;
    QuadraticPartIs(style, vs, i);
    QuadraticRunIsThere(Start(vs, i), vs[i], style.flat2);
  }

  lemma QuadraticPartIs(style: Style, vs: seq<Vertex>, i: nat)
    requires i < |vs| && vs[i].kind.VCurve?
    ensures var v := vs[i]; Part(style, vs, i) == Tess(Start(vs, i), At(v.cx, v.cy), At(v.x, v.y), style.flat2, 0)
  {
    PartIs(style, vs, i);
    hide Tess, Part;
  }

  lemma QuadraticRunIsThere(from: Pt, v: Vertex, flat2: real)
    requires flat2 >= 0.0
    ensures Tess(from, At(v.cx, v.cy), At(v.x, v.y), flat2, 0) != []
       <==> Bend2(from, v) <= 16.0 * (Pow16(16) * flat2)
  {
    hide Tess, Deviation, Pow16, Bend2;
    EmitsIffWithinDepth(from, At(v.cx, v.cy), At(v.x, v.y), flat2);
    BendIsDeviation(from, v);
  }

  lemma BendIsDeviation(from: Pt, v: Vertex)
    ensures Bend2(from, v) == 16.0 * Deviation(from, At(v.cx, v.cy), At(v.x, v.y))
  {
    Quarter(from.x, v.cx as real, v.x as real);
    Quarter(from.y, v.cy as real, v.y as real);
  }

  lemma Quarter(a: real, b: real, c: real)
    ensures var d, bend := (a + c) / 2.0 - (a + 2.0 * b + c) / 4.0, a - 2.0 * b + c;
            16.0 * (d * d) == bend * bend
  {
    var d, bend := (a + c) / 2.0 - (a + 2.0 * b + c) / 4.0, a - 2.0 * b + c;
    assert bend == 4.0 * d;
  }

  // ---------- Cubic curves ----------

  lemma Bez3IsBernstein(a: real, b: real, c: real, d: real, t: real)
    ensures Bez3(a, b, c, d, t) == Bernstein3(a, b, c, d, t)
  {
    var tt, ttt, s := t * t, t * t * t, 1.0 - t;
    var ss, sss := 1.0 - 2.0 * t + tt, 1.0 - 3.0 * t + 3.0 * tt - ttt;
    var sst, stt := t - 2.0 * tt + ttt, tt - ttt;
    var e, f, g := b - a, a - 2.0 * b + c, d - 3.0 * c + 3.0 * b - a;
    BernsteinByPowers(a, b, c, d, t, tt, ttt, s, ss, sss, sst, stt);
    ByDifferences(a, b, c, d, e, f, g, t);
    hide Bez3, Bernstein3, Grown;
    GrownByPowers(e, f, g, t, tt, ttt);
    TimesSum(a, 1.0, t, -3.0, tt, 3.0, ttt, -1.0, sss);
    TimesSum(b, 0.0, t, 1.0, tt, -2.0, ttt, 1.0, sst);
    TimesSum(c, 0.0, tt, 1.0, ttt, -1.0, ttt, 0.0, stt);
    TimesSum(t, 0.0, b, 1.0, a, -1.0, a, 0.0, e);
    TimesSum(tt, 0.0, a, 1.0, b, -2.0, c, 1.0, f);
    TimesSum(ttt, -0.0, d, 1.0, c, -3.0, b, 3.0, g + a);
    TimesSum(ttt, 0.0, g + a, 1.0, a, -1.0, a, 0.0, g);
    LinearSum(a, b, c, d, e, f, g, t, tt, ttt, sss, sst, stt);
  }

  lemma LinearSum(a: real, b: real, c: real, d: real, e: real, f: real, g: real, t: real, tt: real, ttt: real,
                  sss: real, sst: real, stt: real)
    requires a * sss == a - 3.0 * (a * t) + 3.0 * (a * tt) - a * ttt
    requires b * sst == b * t - 2.0 * (b * tt) + b * ttt && c * stt == c * tt - c * ttt
    requires e * t == b * t - a * t && f * tt == a * tt - 2.0 * (b * tt) + c * tt
    requires g * ttt == d * ttt - 3.0 * (c * ttt) + 3.0 * (b * ttt) - a * ttt
    ensures a + (3.0 * (e * t) + 3.0 * (f * tt) + g * ttt) == a * sss + 3.0 * (b * sst) + 3.0 * (c * stt) + d * ttt
  {
  }

  lemma BernsteinByPowers(a: real, b: real, c: real, d: real, t: real, tt: real, ttt: real, s: real, ss: real,
                          sss: real, sst: real, stt: real)
    requires tt == t * t && ttt == t * t * t && s == 1.0 - t
    requires ss == 1.0 - 2.0 * t + tt && sss == 1.0 - 3.0 * t + 3.0 * tt - ttt
    requires sst == t - 2.0 * tt + ttt && stt == tt - ttt
    ensures Bernstein3(a, b, c, d, t) == a * sss + 3.0 * (b * sst) + 3.0 * (c * stt) + d * ttt
  {
    PowersOfRest(t, tt, ttt, s, ss, sss, sst, stt);
    Reordered(s, a, sss);
    assert 3.0 * s * s * t * b == 3.0 * (b * sst) by { Reordered2(s, t, b, sst); }
    assert 3.0 * s * t * t * c == 3.0 * (c * stt) by { Reordered2(t, s, c, stt); }
    assert t * t * t * d == d * ttt;
  }

  lemma Reordered(s: real, a: real, sss: real)
    requires sss == s * s * s
    ensures s * s * s * a == a * sss
  {
  }

  lemma Reordered2(s: real, t: real, b: real, sst: real)
    requires sst == s * s * t
    ensures 3.0 * s * s * t * b == 3.0 * (b * sst) && 3.0 * t * s * s * b == 3.0 * (b * sst)
  {
    assert 3.0 * s * s * t == 3.0 * sst;
  }

  lemma PowersOfRest(t: real, tt: real, ttt: real, s: real, ss: real, sss: real, sst: real, stt: real)
    requires tt == t * t && ttt == t * t * t && s == 1.0 - t
    requires ss == 1.0 - 2.0 * t + tt && sss == 1.0 - 3.0 * t + 3.0 * tt - ttt
    requires sst == t - 2.0 * tt + ttt && stt == tt - ttt
    ensures sss == s * s * s && sst == s * s * t && stt == t * t * s
  {
    TimesSum(s, 1.0, t, -1.0, tt, 0.0, ttt, 0.0, s);
    TimesSum(t, 1.0, t, -1.0, tt, 0.0, ttt, 0.0, s);
    TimesSum(ss, 1.0, t, -1.0, tt, 0.0, ttt, 0.0, s);
    TimesSum(t, 1.0, t, -2.0, tt, 1.0, ttt, 0.0, ss);
    TimesSum(tt, 1.0, t, -1.0, tt, 0.0, ttt, 0.0, s);
    assert t * tt == ttt;
    assert ss == s * s;
  }

  lemma CubicIsBernstein(from: Pt, v: Vertex, t: real)
    ensures Cubic(from, At(v.cx, v.cy), At(v.cx1, v.cy1), At(v.x, v.y), t) == CubicAt(from, v, t)
  {
    hide Bez3, Bernstein3;
    Bez3IsBernstein(from.x, v.cx as real, v.cx1 as real, v.x as real, t);
    Bez3IsBernstein(from.y, v.cy as real, v.cy1 as real, v.y as real, t);
  }

  /** The parameters at which a cubic curve adds its points. */
  function PartTimes(style: Style, vs: seq<Vertex>, i: nat): seq<real>
    requires i < |vs|
  {
    var v := vs[i];
    Times(style.sqrt, Start(vs, i), At(v.cx, v.cy), At(v.cx1, v.cy1), At(v.x, v.y), style.flat2, 0)
  }

  /** A cubic curve adds its points at increasing parameters. */
  lemma CubicPart(style: Style, vs: seq<Vertex>, i: nat)
    requires i < |vs| && vs[i].kind.VCubic?
    ensures var part, ts := Part(style, vs, i), PartTimes(style, vs, i);
            && |ts| == |part|
            && (forall m | 0 <= m < |part| :: 0.0 < ts[m] <= 1.0 && part[m] == CubicAt(Start(vs, i), vs[i], ts[m]))
            && (forall m, n | 0 <= m < n < |part| :: ts[m] < ts[n])
  {
    var from, v := Start(vs, i), vs[i];
    PartIs(style, vs, i);
    CubicPointsOnCurve(style.sqrt, from, At(v.cx, v.cy), At(v.cx1, v.cy1), At(v.x, v.y), style.flat2, 0);
    hide TessCubic, Times, Cubic, CubicAt, Part;
    forall m | 0 <= m < |Part(style, vs, i)|
      ensures Part(style, vs, i)[m] == CubicAt(from, v, PartTimes(style, vs, i)[m])
    {
      CubicIsBernstein(from, v, PartTimes(style, vs, i)[m]);
    }
  }

  /** Whether no piece of the curve of vertex i runs into the depth limit. */
  predicate PartComplete(style: Style, vs: seq<Vertex>, i: nat)
    requires i < |vs|
  {
    var v := vs[i];
    Complete(style.sqrt, Start(vs, i), At(v.cx, v.cy), At(v.cx1, v.cy1), At(v.x, v.y), style.flat2, 0)
  }

  /** Then the last of these points is its end, and the polyline through them is within half the tolerance of the
      whole curve. */
  lemma CubicPartIsNear(style: Style, vs: seq<Vertex>, i: nat, t: real)
    requires i < |vs| && vs[i].kind.VCubic? && PartComplete(style, vs, i)
    requires IsRoot(style.sqrt) && 0.0 <= t <= 1.0
    ensures var part := Part(style, vs, i);
            && part != [] && part[|part| - 1] == Pt.Pt(vs[i].x as real, vs[i].y as real)
            && NearPolyline(CubicAt(Start(vs, i), vs[i], t), [Start(vs, i)] + part, style.flat2)
  {
    hide *;
    CubicPartIs(style, vs, i);
    CubicRunIsNear(style.sqrt, Start(vs, i), vs[i], style.flat2, t);
  }

  lemma CubicRunIsNear(sqrt: real -> real, from: Pt, v: Vertex, flat2: real, t: real)
    requires Complete(sqrt, from, At(v.cx, v.cy), At(v.cx1, v.cy1), At(v.x, v.y), flat2, 0)
    requires IsRoot(sqrt) && 0.0 <= t <= 1.0
    ensures var run := TessCubic(sqrt, from, At(v.cx, v.cy), At(v.cx1, v.cy1), At(v.x, v.y), flat2, 0);
            && run != [] && run[|run| - 1] == Pt.Pt(v.x as real, v.y as real)
            && NearPolyline(CubicAt(from, v, t), [from] + run, flat2)
  {
    hide TessCubic, Complete, Cubic, CubicAt, NearPolyline, IsRoot;
    CompleteEnds(sqrt, from, At(v.cx, v.cy), At(v.cx1, v.cy1), At(v.x, v.y), flat2, 0);
    CubicWithinTolerance(sqrt, from, At(v.cx, v.cy), At(v.cx1, v.cy1), At(v.x, v.y), flat2, 0, t);
    CubicIsBernstein(from, v, t);
  }

  lemma CubicPartIs(style: Style, vs: seq<Vertex>, i: nat)
    requires i < |vs| && vs[i].kind.VCubic?
    ensures var v := vs[i];
            Part(style, vs, i) ==
            TessCubic(style.sqrt, Start(vs, i), At(v.cx, v.cy), At(v.cx1, v.cy1), At(v.x, v.y), style.flat2, 0)
    ensures var v := vs[i];
            PartComplete(style, vs, i) ==
            Complete(style.sqrt, Start(vs, i), At(v.cx, v.cy), At(v.cx1, v.cy1), At(v.x, v.y), style.flat2, 0)
  {
    PartIs(style, vs, i);
    hide TessCubic, Part, Complete;
  }

  // ---------- Contours ----------

  /** The lengths of contours that are behind do not change. */
  lemma {:induction false} PrefixLengths(style: Style, vs: seq<Vertex>, i: nat)
    requires i < |vs| && vs[i].kind.VMove?
    ensures Moves(vs[..i]) < Moves(vs) && Lengths(style, vs)[..Moves(vs[..i])] == Lengths(style, vs[..i])
    decreases |vs|
  {
    hide Piece;
    var front, v := vs[..|vs| - 1], vs[|vs| - 1];
    if i < |front| {
      assert front[..i] == vs[..i];
      PrefixLengths(style, front, i);
    } else {
      assert vs[..i] == front;
    }
  }

  lemma {:induction false} LeadOfPrefix(vs: seq<Vertex>, i: nat)
    requires i < |vs| && vs[i].kind.VMove?
    ensures Lead(vs[..i]) == Lead(vs)
    decreases |vs|
  {
    if i > 0 && !vs[0].kind.VMove? {
      assert vs[..i][1..] == vs[1..][..i - 1];
      LeadOfPrefix(vs[1..], i - 1);
    }
  }

  /** The points of a contour begin with those of its move: at the sum of the lengths of the contours before it,
      behind any points that precede the first move. */
  lemma ContourBegins(style: Style, vs: seq<Vertex>, i: nat)
    requires i < |vs| && vs[i].kind.VMove?
    ensures var j := Moves(vs[..i]);
            && j < |Lengths(style, vs)|
            && Offset(style, vs, i) == |Points(style, Lead(vs))| + Sum(Lengths(style, vs)[..j])
  {
    hide Points, Lengths, Lead, Sum, Moves;
    PrefixLengths(style, vs, i);
    LeadOfPrefix(vs, i);
    LengthsSum(style, vs[..i]);
  }
}
