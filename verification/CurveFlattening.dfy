/** `stbtt_FlattenCurves`: an outline becomes polylines, one per contour, in two agreeing passes. */
module CurveFlattening {
  import opened GlyphOutline
  import opened CurveTessellation
  import opened CubicTessellation

  function At(x: int, y: int): Pt { Pt.Pt(x as real, y as real) }

  /** How curves are approximated. */
  datatype Style = Style(flat2: real, sqrt: real -> real)

  /** Where the pen is after the vertices `vs`. */
  function Pen(vs: seq<Vertex>): Pt {
    if vs == [] then At(0, 0) else At(vs[|vs| - 1].x, vs[|vs| - 1].y)
  }

  /** The points vertex `v` adds when the pen is at `pen`. */
  function Piece(style: Style, pen: Pt, v: Vertex): (points: seq<Pt>)
    ensures v.kind.VMove? || v.kind.VLine? ==> points == [At(v.x, v.y)]
  {
    match v.kind
    case VMove => [At(v.x, v.y)]
    case VLine => [At(v.x, v.y)]
    case VCurve => Tess(pen, At(v.cx, v.cy), At(v.x, v.y), style.flat2, 0)
    case VCubic => TessCubic(style.sqrt, pen, At(v.cx, v.cy), At(v.cx1, v.cy1), At(v.x, v.y), style.flat2, 0)
  }

  /** All points of an outline. */
  function Points(style: Style, vs: seq<Vertex>): seq<Pt> {
    if vs == [] then []
    else
      var front := vs[..|vs| - 1];
      Points(style, front) + Piece(style, Pen(front), vs[|vs| - 1])
  }

  /** The number of points of each contour; a contour starts at a move. */
  function Lengths(style: Style, vs: seq<Vertex>): (ns: seq<nat>)
    ensures |ns| == Moves(vs)
  {
    if vs == [] then []
    else
      var front, v := vs[..|vs| - 1], vs[|vs| - 1];
      var ns, n := Lengths(style, front), |Piece(style, Pen(front), v)|;
      if v.kind.VMove? then ns + [n]
      else if ns == [] then []
      else ns[|ns| - 1 := ns[|ns| - 1] + n]
  }

  function Moves(vs: seq<Vertex>): nat {
    if vs == [] then 0 else Moves(vs[..|vs| - 1]) + if vs[|vs| - 1].kind.VMove? then 1 else 0
  }

  // ---------- The passes ----------

  method CountMoves(vs: array<Vertex>, n: nat) returns (moves: nat)
    requires n <= vs.Length
    ensures moves == Moves(vs[..n])
  {
    moves := 0;
    for i := 0 to n
      invariant moves == Moves(vs[..i])
    {
      assert vs[..i + 1][..i] == vs[..i];
      if vs[i].kind.VMove? { moves := moves + 1; }
    }
  }

  /** What a pass has done after the vertices `vs`: `start` is where the current contour began. */
  ghost predicate Progress(style: Style, vs: seq<Vertex>, points: array?<Pt>, lengths: array<nat>,
                           num: nat, n: int, start: nat)
    reads points, lengths
  {
    var ns := Lengths(style, vs);
    && num == |Points(style, vs)|
    && (points != null ==> num <= points.Length && points[..num] == Points(style, vs))
    && n == |ns| - 1 < lengths.Length
    && (n >= 0 ==> start <= num && ns[n] == num - start)
    && (forall k | 0 <= k < n :: lengths[k] == ns[k])
  }

  /** Adds the piece of one vertex. */
  method AddPiece(style: Style, points: array?<Pt>, num: nat, pen: Pt, v: Vertex) returns (num': nat)
    requires points != null ==> num + |Piece(style, pen, v)| <= points.Length
    modifies points
    ensures num' == num + |Piece(style, pen, v)|
    ensures points != null ==> points[..num'] == old(points[..num]) + Piece(style, pen, v)
  {
    hide Tess, TessCubic;
    match v.kind
    case VMove =>
      if points != null { points[num] := At(v.x, v.y); }
      num' := num + 1;
    case VLine =>
      if points != null { points[num] := At(v.x, v.y); }
      num' := num + 1;
    case VCurve =>
      num' := TesselateCurve(points, num, pen, At(v.cx, v.cy), At(v.x, v.y), style.flat2, 0);
    case VCubic =>
      num' := TesselateCubic(style.sqrt, points, num, pen, At(v.cx, v.cy), At(v.cx1, v.cy1), At(v.x, v.y),
                             style.flat2, 0);
  }

  lemma LengthsSnoc(style: Style, vs: seq<Vertex>, v: Vertex)
    ensures var n := |Piece(style, Pen(vs), v)|;
            var ns := Lengths(style, vs);
            && Points(style, vs + [v]) == Points(style, vs) + Piece(style, Pen(vs), v)
            && Pen(vs + [v]) == At(v.x, v.y)
            && Lengths(style, vs + [v]) ==
               if v.kind.VMove? then ns + [n] else if ns == [] then [] else ns[|ns| - 1 := ns[|ns| - 1] + n]
  {
    hide Piece;
    assert (vs + [v])[..|vs|] == vs;
  }

  /** The part of the pass that handles one vertex. */
  method PassVertex(style: Style, v: Vertex, points: array?<Pt>, lengths: array<nat>, num: nat, n: int, start: nat,
                    pen: Pt, ghost vs: seq<Vertex>)
    returns (num': nat, n': int, start': nat, pen': Pt)
    requires Progress(style, vs, points, lengths, num, n, start) && pen == Pen(vs)
    requires Moves(vs + [v]) <= lengths.Length
    requires points != null ==> |Points(style, vs + [v])| <= points.Length
    modifies points, lengths
    ensures Progress(style, vs + [v], points, lengths, num', n', start') && pen' == Pen(vs + [v])
  {
    hide Points, Lengths, Moves, Piece;
    LengthsSnoc(style, vs, v);
    n', start' := n, start;
    if v.kind.VMove? {
      if n >= 0 { lengths[n] := num - start; }
      n' := n + 1;
      start' := num;
    }
    num' := AddPiece(style, points, num, pen, v);
    pen' := At(v.x, v.y);
  }

  /** The length of the last contour. */
  method EndPass(ghost style: Style, ghost vs: seq<Vertex>, points: array?<Pt>, lengths: array<nat>, num: nat, n: int,
                 start: nat)
    requires Progress(style, vs, points, lengths, num, n, start)
    requires 0 < Moves(vs) == lengths.Length && (points != null ==> points.Length == |Points(style, vs)|)
    modifies lengths
    ensures num == |Points(style, vs)| && (points != null ==> points[..] == Points(style, vs))
    ensures lengths[..] == Lengths(style, vs)
  {
    hide Points, Lengths, Moves;
    lengths[n] := num - start;
  }

  /** One pass over the vertices; with no point array it only counts. */
  method Pass(style: Style, vs: array<Vertex>, count: nat, points: array?<Pt>, lengths: array<nat>) returns (num: nat)
    requires count <= vs.Length && 0 < Moves(vs[..count]) == lengths.Length
    requires points != null ==> points.Length == |Points(style, vs[..count])|
    modifies points, lengths
    ensures num == |Points(style, vs[..count])|
    ensures points != null ==> points[..] == Points(style, vs[..count])
    ensures lengths[..] == Lengths(style, vs[..count])
  {
    hide Points, Lengths, Moves, Progress;
    ghost var all := vs[..count];
    var n: int, start: nat, pen := -1, 0, At(0, 0);
    num := 0;
    NoProgress(style, points, lengths);
    assert all[..0] == [];
    for i := 0 to count
      invariant vs[..count] == all
      invariant Progress(style, all[..i], points, lengths, num, n, start)
      invariant pen == Pen(all[..i])
    {
      assert all[..i + 1] == all[..i] + [vs[i]];
      PrefixIsSmaller(style, all, i + 1);
      num, n, start, pen := PassVertex(style, vs[i], points, lengths, num, n, start, pen, all[..i]);
    }
    assert all[..count] == all;
    EndPass(style, all, points, lengths, num, n, start);
  }

  lemma NoProgress(style: Style, points: array?<Pt>, lengths: array<nat>)
    ensures Progress(style, [], points, lengths, 0, -1, 0)
  {
    NoVertices(style);
  }

  lemma NoVertices(style: Style)
    ensures Points(style, []) == [] && Lengths(style, []) == []
  {
  }

  lemma {:induction false} PrefixIsSmaller(style: Style, vs: seq<Vertex>, i: nat)
    requires i <= |vs|
    ensures |Points(style, vs[..i])| <= |Points(style, vs)|
    ensures Moves(vs[..i]) <= Moves(vs)
  {
    hide Piece;
    if i < |vs| {
      var front := vs[..|vs| - 1];
      assert front[..i] == vs[..i];
      PrefixIsSmaller(style, front, i);
    } else {
      assert vs[..i] == vs;
    }
  }

  /** Both passes see the same vertices, so the array allocated for the counted points is filled
      exactly, and the contour lengths are those of the outline. */
  method FlattenCurves(style: Style, vs: array<Vertex>, count: nat)
    returns (points: array?<Pt>, lengths: array?<nat>, contours: nat)
    requires count <= vs.Length
    ensures contours == Moves(vs[..count])
    ensures contours == 0 ==> points == null
    ensures contours > 0 ==>
              && points != null && lengths != null && fresh(points) && fresh(lengths)
              && points[..] == Points(style, vs[..count])
              && lengths[..] == Lengths(style, vs[..count])
  {
    hide Points, Lengths, Moves;
    contours := CountMoves(vs, count);
    if contours == 0 { return null, null, 0; }
    var ns := new nat[contours](_ => 0);
    var num := Pass(style, vs, count, null, ns);
    var ps := new Pt[num](_ => At(0, 0));
    num := Pass(style, vs, count, ps, ns);
    return ps, ns, contours;
  }

  // ---------- The contours partition the points ----------

  function Sum(ns: seq<nat>): nat {
    if ns == [] then 0 else Sum(ns[..|ns| - 1]) + ns[|ns| - 1]
  }

  /** The vertices before the first move. */
  function Lead(vs: seq<Vertex>): seq<Vertex> {
    if vs == [] || vs[0].kind.VMove? then [] else [vs[0]] + Lead(vs[1..])
  }

  lemma {:induction false} SumUpdateLast(ns: seq<nat>, n: nat)
    requires ns != []
    ensures Sum(ns[|ns| - 1 := ns[|ns| - 1] + n]) == Sum(ns) + n
  {
    var last := |ns| - 1;
    assert ns[last := ns[last] + n][..last] == ns[..last];
  }

  lemma {:induction false} LeadSnoc(vs: seq<Vertex>, v: Vertex)
    ensures Lead(vs + [v]) == if Moves(vs) == 0 && !v.kind.VMove? then vs + [v] else Lead(vs)
    ensures Moves(vs) == 0 ==> Lead(vs) == vs
  {
    LeadIsPrefix(vs);
    LeadIsPrefix(vs + [v]);
    var ws := vs + [v];
    assert ws[..|vs|] == vs;
    LeadOfPrefix(vs, v);
  }

  lemma {:induction false} LeadIsPrefix(vs: seq<Vertex>)
    ensures Moves(vs) == 0 ==> Lead(vs) == vs
  {
    if vs != [] {
      MovesCons(vs);
      LeadIsPrefix(vs[1..]);
    }
  }

  lemma {:induction false} MovesCons(vs: seq<Vertex>)
    requires vs != []
    ensures Moves(vs) == Moves(vs[1..]) + if vs[0].kind.VMove? then 1 else 0
  {
    if |vs| > 1 {
      var front := vs[..|vs| - 1];
      MovesCons(front);
      assert front[1..] == vs[1..][..|vs| - 2];
    } else {
      assert vs[..0] == [] && vs[1..] == [];
    }
  }

  lemma {:induction false} LeadOfPrefix(vs: seq<Vertex>, v: Vertex)
    ensures Moves(vs) > 0 || v.kind.VMove? ==> Lead(vs + [v]) == Lead(vs)
  {
    if vs != [] {
      MovesCons(vs);
      assert (vs + [v])[1..] == vs[1..] + [v];
      LeadOfPrefix(vs[1..], v);
    }
  }

  /** The contour lengths add up to all the points but those drawn before the first move. */
  lemma {:induction false} LengthsSum(style: Style, vs: seq<Vertex>)
    ensures Sum(Lengths(style, vs)) + |Points(style, Lead(vs))| == |Points(style, vs)|
  {
    hide Piece, Points, Lengths, Lead, Sum;
    if vs == [] {
      NoVertices(style);
      NothingBefore();
    } else {
      var front, v := vs[..|vs| - 1], vs[|vs| - 1];
      LengthsSum(style, front);
      assert vs == front + [v];
      LeadSnoc(front, v);
      LengthsSnoc(style, front, v);
      var ns, n := Lengths(style, front), |Piece(style, Pen(front), v)|;
      if v.kind.VMove? {
        SumSnoc(ns, n);
      } else if ns != [] {
        SumUpdateLast(ns, n);
      } else {
        NothingBefore();
      }
    }
  }

  lemma NothingBefore()
    ensures Lead([]) == [] && Sum([]) == 0
  {
  }

  lemma SumSnoc(ns: seq<nat>, n: nat)
    ensures Sum(ns + [n]) == Sum(ns) + n
  {
    assert (ns + [n])[..|ns|] == ns;
  }

  /** The rasterizer finds contour j at the sum of the lengths before it, which is right exactly when no
      point precedes the first move. */
  lemma LengthsCoverPoints(style: Style, vs: seq<Vertex>)
    ensures Sum(Lengths(style, vs)) == |Points(style, vs)| <==> Points(style, Lead(vs)) == []
  {
    LengthsSum(style, vs);
  }
}
