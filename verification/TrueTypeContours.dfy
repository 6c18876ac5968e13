/** What a TrueType contour looks like, read off its points: the implied points made explicit, and then one line
    or curve from each on-curve point to the next. */
module TrueTypeContours {
  import opened GlyphOutline
  import opened TrueTypeOutline
  import opened Wrappers

  // ---------- The reference ----------

  /** The points with an on-curve point halfway between any two neighbours that are both off the curve. */
  function Explicit(points: seq<Pt>): seq<Pt> {
    if |points| < 2 then points
    else
      var p, q := points[0], points[1];
      (if p.on || q.on then [p] else [p, Pt.Pt(true, (p.x + q.x) / 2, (p.y + q.y) / 2)]) + Explicit(points[1..])
  }

  /** Once around a contour, from its first on-curve point back to it. */
  function Around(c: seq<Pt>): seq<Pt>
    requires c != []
  {
    var ring := Explicit(c + [c[0]]);
    if c[0].on || |ring| < 2 then ring else ring[1..] + [ring[1]]
  }

  /** A line to the next point if that is on the curve, and else a curve around it to the one after it. */
  function Drawn(points: seq<Pt>): seq<Vertex> {
    if |points| < 2 then []
    else if points[1].on then [Vertex(VLine, points[1].x, points[1].y, 0, 0, 0, 0)] + Drawn(points[1..])
    else if |points| < 3 then []
    else [Vertex(VCurve, points[2].x, points[2].y, points[1].x, points[1].y, 0, 0)] + Drawn(points[2..])
  }

  // ---------- No two points off the curve are neighbours ----------

  lemma {:induction false} ExplicitAlternates(points: seq<Pt>)
    ensures |Explicit(points)| >= |points| && (points != [] ==> Explicit(points)[0] == points[0])
    ensures forall i | 0 <= i < |Explicit(points)| - 1 :: Explicit(points)[i].on || Explicit(points)[i + 1].on
  {
    if |points| >= 2 {
      ExplicitAlternates(points[1..]);
    }
  }

  // ---------- The walk draws the explicit points ----------

  /** What linking `points` adds when `pending` waits for its end point. */
  function Links(pending: Option<Pt>, points: seq<Pt>): seq<Vertex>
    decreases |points|
  {
    if points == [] then []
    else
      var next := Link(Chain.Chain(pending, []), points[0]);
      next.out + Links(next.pending, points[1..])
  }

  lemma LinkAppends(c: Chain, p: Pt)
    ensures var next := Link(Chain.Chain(c.pending, []), p);
            Link(c, p) == Chain.Chain(next.pending, c.out + next.out)
  {
  }

  lemma NoLinks(pending: Option<Pt>)
    ensures Links(pending, []) == []
  {
  }

  lemma LinksCons(pending: Option<Pt>, points: seq<Pt>)
    requires points != []
    ensures var next := Link(Chain.Chain(pending, []), points[0]);
            Links(pending, points) == next.out + Links(next.pending, points[1..])
  {
    hide Link;
  }

  lemma {:induction false} WalkLinks(front: seq<Pt>, points: seq<Pt>)
    ensures Walk(front + points).out == Walk(front).out + Links(Walk(front).pending, points)
    decreases |points|
  {
    hide *;
    if points == [] {
      NoLinks(Walk(front).pending);
      assert front + points == front;
    } else {
      LinksCons(Walk(front).pending, points);
      WalkAppend(front, points[0]);
      LinkAppends(Walk(front), points[0]);
      WalkLinks(front + [points[0]], points[1..]);
      assert front + [points[0]] + points[1..] == front + points;
    }
  }

  lemma ExplicitStep(p: Pt, q: Pt, rest: seq<Pt>)
    ensures Explicit([p, q] + rest)
         == (if p.on || q.on then [p] else [p, Pt.Pt(true, (p.x + q.x) / 2, (p.y + q.y) / 2)])
            + Explicit([q] + rest)
  {
    assert ([p, q] + rest)[1..] == [q] + rest;
  }

  lemma DrawnLine(s: Pt, p: Pt, rest: seq<Pt>)
    requires p.on && rest != [] && rest[0] == p
    ensures Drawn([s] + rest) == [Vertex(VLine, p.x, p.y, 0, 0, 0, 0)] + Drawn(rest)
  {
    assert ([s] + rest)[1..] == rest;
  }

  lemma DrawnCurve(s: Pt, q: Pt, p: Pt, rest: seq<Pt>)
    requires !q.on && rest != [] && rest[0] == p
    ensures Drawn([s, q] + rest) == [Vertex(VCurve, p.x, p.y, q.x, q.y, 0, 0)] + Drawn(rest)
  {
    assert ([s, q] + rest)[2..] == rest;
  }

  lemma LinksNext(points: seq<Pt>)
    requires points != []
    ensures var p := points[0];
            Links(None, points) ==
            if p.on then [Vertex(VLine, p.x, p.y, 0, 0, 0, 0)] + Links(None, points[1..])
            else Links(Some(p), points[1..])
  {
  }

  /** From an on-curve point, with nothing pending. */
  lemma {:induction false} LinksFromOn(s: Pt, points: seq<Pt>)
    requires s.on && (points != [] ==> points[|points| - 1].on)
    ensures Links(None, points) == Drawn(Explicit([s] + points))
    decreases |points|, 0
  {
    if points == [] {
      assert [s] + points == [s];
    } else {
      hide Explicit, Drawn, Links;
      var p, rest := points[0], points[1..];
      assert [s] + points == [s, p] + rest && points == [p] + rest;
      LinksNext(points);
      if p.on {
        LinksFromOn(p, rest);
        ExplicitStep(s, p, rest);
        ExplicitStarts(p, rest);
        DrawnLine(s, p, Explicit([p] + rest));
      } else {
        LinksFromOff(s, p, rest);
      }
    }
  }

  lemma LinksStep(q: Pt, points: seq<Pt>)
    requires points != []
    ensures var p, m := points[0], Pt.Pt(true, (q.x + points[0].x) / 2, (q.y + points[0].y) / 2);
            Links(Some(q), points) ==
            if p.on then [Vertex(VCurve, p.x, p.y, q.x, q.y, 0, 0)] + Links(None, points[1..])
            else [Vertex(VCurve, m.x, m.y, q.x, q.y, 0, 0)] + Links(Some(p), points[1..])
  {
  }

  lemma ExplicitOffOn(s: Pt, q: Pt, p: Pt, rest: seq<Pt>)
    requires s.on && p.on
    ensures Explicit([s, q, p] + rest) == [s, q] + Explicit([p] + rest)
  {
    hide Explicit;
    assert [s, q, p] + rest == [s, q] + ([p] + rest) && [q] + ([p] + rest) == [q, p] + rest;
    ExplicitStep(s, q, [p] + rest);
    ExplicitStep(q, p, rest);
  }

  lemma ExplicitOffOff(s: Pt, q: Pt, p: Pt, rest: seq<Pt>)
    requires s.on && !q.on && !p.on
    ensures var m := Pt.Pt(true, (q.x + p.x) / 2, (q.y + p.y) / 2);
            Explicit([s, q, p] + rest) == [s, q] + Explicit([m, p] + rest)
  {
    hide Explicit;
    var m := Pt.Pt(true, (q.x + p.x) / 2, (q.y + p.y) / 2);
    assert [s, q, p] + rest == [s, q] + ([p] + rest) && [q] + ([p] + rest) == [q, p] + rest;
    ExplicitStep(s, q, [p] + rest);
    ExplicitStep(q, p, rest);
    ExplicitStep(m, p, rest);
    var tail := Explicit([p] + rest);
    assert [s] + ([q, m] + tail) == [s, q] + ([m] + tail);
  }

  lemma ExplicitStarts(p: Pt, rest: seq<Pt>)
    ensures Explicit([p] + rest) != [] && Explicit([p] + rest)[0] == p
  {
    ExplicitAlternates([p] + rest);
  }

  /** With an off-curve point pending. */
  lemma {:induction false} LinksFromOff(s: Pt, q: Pt, points: seq<Pt>)
    requires s.on && !q.on && points != [] && points[|points| - 1].on
    ensures Links(Some(q), points) == Drawn(Explicit([s, q] + points))
    decreases |points|, 1
  {
    hide Explicit, Drawn, Links;
    var p, rest := points[0], points[1..];
    LinksStep(q, points);
    assert points == [p] + rest && [s, q] + points == [s, q, p] + rest;
    if p.on {
      ExplicitOffOn(s, q, p, rest);
      ExplicitStarts(p, rest);
      DrawnCurve(s, q, p, Explicit([p] + rest));
      LinksFromOn(p, rest);
    } else {
      var m := Pt.Pt(true, (q.x + p.x) / 2, (q.y + p.y) / 2);
      ExplicitOffOff(s, q, p, rest);
      assert [m, p] + rest == [m] + ([p] + rest);
      ExplicitStarts(m, [p] + rest);
      DrawnCurve(s, q, m, Explicit([m, p] + rest));
      LinksFromOff(m, p, rest);
    }
  }

  lemma {:induction false} ExplicitSnocOn(points: seq<Pt>, p: Pt)
    requires p.on
    ensures Explicit(points + [p]) == Explicit(points) + [p]
  {
    if points == [] {
      assert points + [p] == [p];
    } else {
      assert (points + [p])[1..] == points[1..] + [p];
      ExplicitSnocOn(points[1..], p);
      if |points| == 1 { assert points[1..] == [] && points == [points[0]]; }
    }
  }

  lemma AroundRing(c: seq<Pt>)
    requires c != []
    ensures var ring := Explicit(c + [c[0]]);
            Around(c) == if c[0].on || |ring| < 2 then ring else ring[1..] + [ring[1]]
  {
    hide Explicit;
  }

  /** From a point on the curve. */
  lemma AroundFromOn(c: seq<Pt>)
    requires c != [] && c[0].on
    ensures Around(c) == Explicit([c[0]] + (c[1..] + [c[0]]))
  {
    hide Explicit;
    assert [c[0]] + (c[1..] + [c[0]]) == c + [c[0]];
  }

  /** From the second point, if that is the first on the curve. */
  lemma AroundFromSecond(c: seq<Pt>)
    requires |c| >= 2 && !c[0].on && c[1].on
    ensures Around(c) == Explicit([c[1]] + (c[2..] + [c[0], c[1]]))
  {
    AroundRing(c);
    hide Explicit, Around;
    var rest := c[2..] + [c[0]];
    assert c + [c[0]] == [c[0], c[1]] + rest;
    ExplicitStep(c[0], c[1], rest);
    ExplicitStarts(c[1], rest);
    ExplicitSnocOn([c[1]] + rest, c[1]);
    assert [c[1]] + rest + [c[1]] == [c[1]] + (c[2..] + [c[0], c[1]]);
  }

  /** From the point halfway between the first two. */
  lemma AroundFromMiddle(c: seq<Pt>)
    requires |c| >= 2 && !c[0].on && !c[1].on
    ensures var m := Pt.Pt(true, (c[0].x + c[1].x) / 2, (c[0].y + c[1].y) / 2);
            Around(c) == Explicit([m] + (c[1..] + [c[0], m]))
  {
    AroundRing(c);
    hide Explicit, Around;
    var m := Pt.Pt(true, (c[0].x + c[1].x) / 2, (c[0].y + c[1].y) / 2);
    var rest := c[2..] + [c[0]];
    assert c + [c[0]] == [c[0], c[1]] + rest;
    ExplicitStep(c[0], c[1], rest);
    ExplicitStarts(c[1], rest);
    ExplicitStep(m, c[1], rest);
    ExplicitSnocOn([m, c[1]] + rest, m);
    assert [m, c[1]] + rest + [m] == [m] + (c[1..] + [c[0], m]);
    assert ([c[0], m] + Explicit([c[1]] + rest))[1..] == [m] + Explicit([c[1]] + rest);
  }

  /** The way around the contour is the explicit form of the ring that the walk follows. */
  lemma AroundIs(c: seq<Pt>)
    requires ValidContour(c)
    ensures Around(c) == Explicit([StartOf(c)] + (c[StartLength(c)..] + Closing(c)))
  {
    hide Explicit, Around;
    if c[0].on {
      AroundFromOn(c);
      assert [] + [c[0]] == [c[0]];
    } else {
      assert [c[0]] + [StartOf(c)] == [c[0], StartOf(c)];
      if c[1].on { AroundFromSecond(c); } else { AroundFromMiddle(c); }
    }
  }

  lemma NothingLinked()
    ensures Walk([]) == Chain.Chain(None, [])
  {
  }

  lemma WalkIsLinks(points: seq<Pt>)
    ensures Walk(points).out == Links(None, points)
  {
    hide *;
    var none: seq<Pt> := [];
    NothingLinked();
    WalkLinks(none, points);
    assert none + points == points;
  }

  /** A contour is a move to its first on-curve point, given or implied, and from there a line or a curve to each
      next one, all the way around. */
  lemma ContourIsDrawn(c: seq<Pt>)
    requires ValidContour(c)
    ensures var points := Around(c);
            && points != [] && points[0].on
            && Contour(c) == [Vertex(VMove, points[0].x, points[0].y, 0, 0, 0, 0)] + Drawn(points)
  {
    hide *;
    ContourFollowsRing(c);
    AroundIs(c);
    var s, ring := StartOf(c), c[StartLength(c)..] + Closing(c);
    ExplicitAlternates([s] + ring);
    WalkDraws(s, ring);
  }

  lemma ContourFollowsRing(c: seq<Pt>)
    requires ValidContour(c)
    ensures var s, ring := StartOf(c), c[StartLength(c)..] + Closing(c);
            && s.on && ring != [] && ring[|ring| - 1] == s
            && Contour(c) == [Vertex(VMove, s.x, s.y, 0, 0, 0, 0)] + Walk(ring).out
  {
    hide Walk, StartOf, StartLength;
  }

  lemma WalkDraws(s: Pt, ring: seq<Pt>)
    requires s.on && ring != [] && ring[|ring| - 1] == s
    ensures Walk(ring).out == Drawn(Explicit([s] + ring))
  {
    hide *;
    WalkIsLinks(ring);
    LinksFromOn(s, ring);
  }

  /** A glyph is the contours of its points, cut after each contour end. */
  lemma OutlineIsDrawn(points: seq<Pt>, ends: seq<nat>, j: nat)
    requires WellFormed(points, ends) && j < |ends|
    ensures var from := if j == 0 then 0 else ends[j - 1] + 1;
            && from <= ends[j] < |points|
            && var around := Around(points[from..ends[j] + 1]);
               && around != []
               && Outline(points, ends, j + 1)
               == Outline(points, ends, j)
                  + ([Vertex(VMove, around[0].x, around[0].y, 0, 0, 0, 0)] + Drawn(around))
    ensures Outline(points, ends, 0) == []
  {
    hide Contour, Around, Drawn;
    var c := ContourPoints(points, ends, j);
    ContourIsDrawn(c);
    assert c == points[ContourStart(ends, j)..ends[j] + 1];
  }
}
