/** What each drawing operator abbreviates (TN 5177, section 4.1): a sequence of `rlineto` and `rrcurveto` with all
    their operands written out. */
module CharstringShorthand {
  import opened MachineInts
  import opened CffBuffer
  import opened Charstring
  import opened CharstringEncoding
  import opened HintHeaders
  import opened SubroutineInlining
  import opened Wrappers

  /** The operands of one `rlineto` or one `rrcurveto`. */
  datatype Stroke =
    | Straight(dx: int, dy: int)
    | Curved(dxa: int, dya: int, dxb: int, dyb: int, dxc: int, dyc: int)

  predicate Fits(s: Stroke) {
    match s
    case Straight(dx, dy) => Is16Bit(dx) && Is16Bit(dy)
    case Curved(a, b, c, d, e, f) => Is16Bit(a) && Is16Bit(b) && Is16Bit(c) && Is16Bit(d) && Is16Bit(e) && Is16Bit(f)
  }

  predicate AllFit(ss: seq<Stroke>) { forall i | 0 <= i < |ss| :: Fits(ss[i]) }

  function StrokeBytes(s: Stroke): seq<byte>
    requires Fits(s)
  {
    match s
    case Straight(dx, dy) => OperandBytes([dx, dy]) + [0x05]
    case Curved(a, b, c, d, e, f) => OperandBytes([a, b, c, d, e, f]) + [0x08]
  }

  /** The strokes written out. */
  function LongForm(ss: seq<Stroke>): seq<byte>
    requires AllFit(ss)
  {
    if ss == [] then [] else StrokeBytes(ss[0]) + LongForm(ss[1..])
  }

  // ---------- What the operators stand for ----------

  /** `rlineto` takes pairs. */
  function Pairs(v: seq<int>): seq<Stroke> {
    if |v| < 2 then [] else [Straight(v[0], v[1])] + Pairs(v[2..])
  }

  /** `hlineto` and `vlineto` take one operand per line, alternately along both axes. */
  function Alternating(v: seq<int>, horizontal: bool): seq<Stroke> {
    if v == [] then []
    else [if horizontal then Straight(v[0], 0) else Straight(0, v[0])] + Alternating(v[1..], !horizontal)
  }

  /** `rrcurveto` takes six operands per curve. */
  function Sixes(v: seq<int>): seq<Stroke> {
    if |v| < 6 then [] else [Curved(v[0], v[1], v[2], v[3], v[4], v[5])] + Sixes(v[6..])
  }

  /** `rcurveline`: curves, and a line at the end. */
  function SixesThenPair(v: seq<int>): seq<Stroke>
    requires |v| >= 2
  {
    if |v| < 8 then [Straight(v[0], v[1])]
    else [Curved(v[0], v[1], v[2], v[3], v[4], v[5])] + SixesThenPair(v[6..])
  }

  /** `rlinecurve`: lines, and a curve at the end. */
  function PairsThenSix(v: seq<int>): seq<Stroke>
    requires |v| >= 6
  {
    if |v| < 8 then [Curved(v[0], v[1], v[2], v[3], v[4], v[5])]
    else [Straight(v[0], v[1])] + PairsThenSix(v[2..])
  }

  /** `hhcurveto` and `vvcurveto`: each curve starts and ends along the same axis, the first one off it by `across`. */
  function Parallel(v: seq<int>, across: int, horizontal: bool): seq<Stroke> {
    if |v| < 4 then []
    else
      [if horizontal then Curved(v[0], across, v[1], v[2], v[3], 0) else Curved(across, v[0], v[1], v[2], 0, v[3])]
      + Parallel(v[4..], 0, horizontal)
  }

  /** `hvcurveto` and `vhcurveto`: each curve starts along one axis and ends along the other, the last one off it
      by a fifth operand. */
  function Turning(v: seq<int>, horizontal: bool): seq<Stroke> {
    if |v| < 4 then []
    else
      var last := if |v| == 5 then v[4] else 0;
      [if horizontal then Curved(v[0], 0, v[1], v[2], last, v[3]) else Curved(0, v[0], v[1], v[2], v[3], last)]
      + Turning(v[4..], !horizontal)
  }

  /** The least number of operands. */
  function Least(op: byte): nat {
    if op == 0x06 || op == 0x07 then 1
    else if op == 0x05 then 2
    else if op in {0x1A, 0x1B, 0x1E, 0x1F} then 4
    else if op == 0x08 then 6
    else 8
  }

  function Strokes(op: byte, v: seq<int>): seq<Stroke>
    requires IsPathOp(op) && |v| >= Least(op)
  {
    if op == 0x05 then Pairs(v)
    else if op == 0x06 then Alternating(v, true)
    else if op == 0x07 then Alternating(v, false)
    else if op == 0x08 then Sixes(v)
    else if op == 0x18 then SixesThenPair(v)
    else if op == 0x19 then PairsThenSix(v)
    else if op == 0x1F then Turning(v, true)
    else if op == 0x1E then Turning(v, false)
    else
      var odd := |v| % 2 == 1;
      Parallel(if odd then v[1..] else v, if odd then v[0] else 0, op == 0x1B)
  }

  function LeastFlex(op: byte): nat {
    if op == 0x22 then 7 else if op == 0x23 then 13 else if op == 0x24 then 9 else 11
  }

  predicate IsFlexOp(op: byte) { op in {0x22, 0x23, 0x24, 0x25} }

  function Magnitude(x: int): nat { if x < 0 then -x else x }

  /** The flex operators: two curves, of which some coordinates are zero or lead back to where the first one began. */
  function FlexStrokes(op: byte, v: seq<int>): seq<Stroke>
    requires IsFlexOp(op) && |v| >= LeastFlex(op)
  {
    if op == 0x22 then [Curved(v[0], 0, v[1], v[2], v[3], 0), Curved(v[4], 0, v[5], -v[2], v[6], 0)]
    else if op == 0x23 then
      [Curved(v[0], v[1], v[2], v[3], v[4], v[5]), Curved(v[6], v[7], v[8], v[9], v[10], v[11])]
    else if op == 0x24 then
      [Curved(v[0], v[1], v[2], v[3], v[4], 0), Curved(v[5], 0, v[6], v[7], v[8], -(v[1] + v[3] + v[7]))]
    else
      var dx, dy := v[0] + v[2] + v[4] + v[6] + v[8], v[1] + v[3] + v[5] + v[7] + v[9];
      [Curved(v[0], v[1], v[2], v[3], v[4], v[5]),
       if Magnitude(dx) > Magnitude(dy) then Curved(v[6], v[7], v[8], v[9], v[10], -dy)
       else Curved(v[6], v[7], v[8], v[9], -dx, v[10])]
  }

  // ---------- Strokes as segments ----------

  function Drawn(s: Stroke): Segment {
    match s
    case Straight(dx, dy) => Line(dx as real, dy as real)
    case Curved(a, b, c, d, e, f) => Curve(a as real, b as real, c as real, d as real, e as real, f as real)
  }

  function AllDrawn(ss: seq<Stroke>): (r: seq<Segment>)
    ensures |r| == |ss|
  {
    seq(|ss|, i requires 0 <= i < |ss| => Drawn(ss[i]))
  }

  lemma {:induction false} DrawCons(p: Path, s: Segment, rest: seq<Segment>)
    ensures Draw(p, [s] + rest) == Draw(DrawOne(p, s), rest)
    decreases |rest|
  {
    hide DrawOne;
    if rest == [] {
      assert [s] + rest == [s];
      DrawSingle(p, s);
    } else {
      var front := rest[..|rest| - 1];
      assert ([s] + rest)[..|rest|] == [s] + front;
      DrawCons(p, s, front);
    }
  }

  /** Writing out one stroke draws it. */
  lemma StrokeHere(font: Font, s: Stroke, tail: seq<byte>, depth: nat, st: State)
    requires depth <= CALL_LIMIT && st.stack == [] && Fits(s)
    ensures Exec(font, NewBuf(StrokeBytes(s) + tail), depth, st)
         == Exec(font, NewBuf(tail), depth, st.(path := DrawOne(st.path, Drawn(s))))
  {
    hide Exec, OperandBytes, Step, PathSegments, Draw, DrawOne;
    match s
    case Straight(dx, dy) =>
      var v := [dx, dy];
      OneLine(Reals(v));
      PathStep(font, 0x05, tail, st.(stack := Reals(v)));
      DrawSingle(st.path, Drawn(s));
      OperatorHere(font, v, 0x05, tail, depth, st, st.(path := DrawOne(st.path, Drawn(s))));
      assert StrokeBytes(s) + tail == OperandBytes(v) + ([0x05] + tail);
    case Curved(a, b, c, d, e, f) =>
      var v := [a, b, c, d, e, f];
      OneCurve(Reals(v));
      PathStep(font, 0x08, tail, st.(stack := Reals(v)));
      DrawSingle(st.path, Drawn(s));
      OperatorHere(font, v, 0x08, tail, depth, st, st.(path := DrawOne(st.path, Drawn(s))));
      assert StrokeBytes(s) + tail == OperandBytes(v) + ([0x08] + tail);
  }

  lemma {:induction false} StrokesHere(font: Font, ss: seq<Stroke>, tail: seq<byte>, depth: nat, st: State)
    requires depth <= CALL_LIMIT && st.stack == [] && AllFit(ss)
    ensures Exec(font, NewBuf(LongForm(ss) + tail), depth, st)
         == Exec(font, NewBuf(tail), depth, st.(path := Draw(st.path, AllDrawn(ss))))
    decreases |ss|
  {
    if ss == [] {
      NothingWritten(tail, st.path);
    } else {
      LongFormStep(ss);
      hide *;
      var s, rest := ss[0], ss[1..];
      Regrouped(StrokeBytes(s), LongForm(rest), tail);
      StrokeHere(font, s, LongForm(rest) + tail, depth, st);
      StrokesHere(font, rest, tail, depth, st.(path := DrawOne(st.path, Drawn(s))));
      DrawCons(st.path, Drawn(s), AllDrawn(rest));
    }
  }

  lemma LongFormStep(ss: seq<Stroke>)
    requires AllFit(ss) && ss != []
    ensures Fits(ss[0]) && AllFit(ss[1..]) && LongForm(ss) == StrokeBytes(ss[0]) + LongForm(ss[1..])
    ensures AllDrawn(ss) == [Drawn(ss[0])] + AllDrawn(ss[1..])
  {
    hide Fits, StrokeBytes, Drawn;
  }

  lemma NothingWritten(tail: seq<byte>, p: Path)
    ensures LongForm([]) + tail == tail && Draw(p, AllDrawn([])) == p
  {
  }

  lemma Regrouped(a: seq<byte>, b: seq<byte>, c: seq<byte>)
    ensures a + b + c == a + (b + c)
  {
  }

  // ---------- The operators draw these segments ----------

  lemma {:induction false} PairsAt(v: seq<int>, k: nat)
    requires k < |v| / 2
    ensures |Pairs(v)| == |v| / 2 && Pairs(v)[k] == Straight(v[2 * k], v[2 * k + 1])
  {
    PairsSize(v);
    if k > 0 { PairsAt(v[2..], k - 1); }
  }

  lemma {:induction false} PairsSize(v: seq<int>)
    ensures |Pairs(v)| == |v| / 2
  {
    if |v| >= 2 { PairsSize(v[2..]); }
  }

  lemma {:induction false} AlternatingAt(v: seq<int>, h: bool, k: nat)
    requires k < |v|
    ensures |Alternating(v, h)| == |v|
    ensures Alternating(v, h)[k] == if (k % 2 == 0) == h then Straight(v[k], 0) else Straight(0, v[k])
  {
    AlternatingSize(v, h);
    if k > 0 { AlternatingAt(v[1..], !h, k - 1); }
  }

  lemma {:induction false} AlternatingSize(v: seq<int>, h: bool)
    ensures |Alternating(v, h)| == |v|
  {
    if v != [] { AlternatingSize(v[1..], !h); }
  }

  lemma {:induction false} SixesAt(v: seq<int>, k: nat)
    requires k < |v| / 6
    ensures |Sixes(v)| == |v| / 6
    ensures var i := 6 * k; Sixes(v)[k] == Curved(v[i], v[i + 1], v[i + 2], v[i + 3], v[i + 4], v[i + 5])
  {
    SixesSize(v);
    if k > 0 { SixesAt(v[6..], k - 1); }
  }

  lemma {:induction false} SixesSize(v: seq<int>)
    ensures |Sixes(v)| == |v| / 6
  {
    if |v| >= 6 { SixesSize(v[6..]); }
  }

  lemma {:induction false} SixesThenPairIs(v: seq<int>)
    requires |v| >= 2
    ensures var n := (|v| - 2) / 6;
            SixesThenPair(v) == Sixes(v[..6 * n]) + [Straight(v[6 * n], v[6 * n + 1])]
  {
    var n := (|v| - 2) / 6;
    if |v| >= 8 {
      SixesThenPairIs(v[6..]);
      assert v[..6 * n][6..] == v[6..][..6 * (n - 1)];
    } else {
      assert v[..6 * n] == [];
    }
  }

  lemma {:induction false} PairsThenSixIs(v: seq<int>)
    requires |v| >= 6
    ensures var n := (|v| - 6) / 2; var i := 2 * n;
            PairsThenSix(v) == Pairs(v[..i]) + [Curved(v[i], v[i + 1], v[i + 2], v[i + 3], v[i + 4], v[i + 5])]
  {
    var n := (|v| - 6) / 2;
    if |v| >= 8 {
      PairsThenSixIs(v[2..]);
      assert v[..2 * n][2..] == v[2..][..2 * (n - 1)];
    } else {
      assert v[..2 * n] == [];
    }
  }

  lemma {:induction false} ParallelAt(v: seq<int>, across: int, h: bool, k: nat)
    requires k < |v| / 4
    ensures |Parallel(v, across, h)| == |v| / 4
    ensures var i, a := 4 * k, if k == 0 then across else 0;
            Parallel(v, across, h)[k] ==
            if h then Curved(v[i], a, v[i + 1], v[i + 2], v[i + 3], 0)
            else Curved(a, v[i], v[i + 1], v[i + 2], 0, v[i + 3])
  {
    ParallelSize(v, across, h);
    if k > 0 { ParallelAt(v[4..], 0, h, k - 1); }
  }

  lemma {:induction false} ParallelSize(v: seq<int>, across: int, h: bool)
    ensures |Parallel(v, across, h)| == |v| / 4
  {
    if |v| >= 4 { ParallelSize(v[4..], 0, h); }
  }

  lemma {:induction false} TurningAt(v: seq<int>, h: bool, k: nat)
    requires k < |v| / 4
    ensures |Turning(v, h)| == |v| / 4
    ensures var i := 4 * k;
            var last := if |v| - i == 5 then v[i + 4] else 0;
            Turning(v, h)[k] ==
            if (k % 2 == 0) == h then Curved(v[i], 0, v[i + 1], v[i + 2], last, v[i + 3])
            else Curved(0, v[i], v[i + 1], v[i + 2], v[i + 3], last)
  {
    TurningSize(v, h);
    if k > 0 { TurningAt(v[4..], !h, k - 1); }
  }

  lemma {:induction false} TurningSize(v: seq<int>, h: bool)
    ensures |Turning(v, h)| == |v| / 4
  {
    if |v| >= 4 { TurningSize(v[4..], !h); }
  }

  lemma LinesAre(v: seq<int>, n: nat)
    requires n == |v| / 2
    ensures Lines(Reals(v), n) == AllDrawn(Pairs(v))
  {
    hide Pairs;
    PairsSize(v);
    forall k | 0 <= k < n ensures Lines(Reals(v), n)[k] == AllDrawn(Pairs(v))[k] { PairsAt(v, k); }
  }

  lemma CurvesAre(v: seq<int>, n: nat)
    requires n == |v| / 6
    ensures Curves(Reals(v), n) == AllDrawn(Sixes(v))
  {
    hide Sixes;
    SixesSize(v);
    forall k | 0 <= k < n ensures Curves(Reals(v), n)[k] == AllDrawn(Sixes(v))[k] { SixesAt(v, k); }
  }

  lemma AlternatingLinesAre(v: seq<int>, h: bool)
    ensures AlternatingLines(Reals(v), h) == AllDrawn(Alternating(v, h))
  {
    hide Alternating;
    AlternatingSize(v, h);
    forall k | 0 <= k < |v| ensures AlternatingLines(Reals(v), h)[k] == AllDrawn(Alternating(v, h))[k] {
      AlternatingAt(v, h, k);
    }
  }

  lemma AlternatingCurvesAre(v: seq<int>, h: bool)
    ensures AlternatingCurves(Reals(v), h) == AllDrawn(Turning(v, h))
  {
    hide Turning;
    TurningSize(v, h);
    forall k | 0 <= k < |v| / 4 ensures AlternatingCurves(Reals(v), h)[k] == AllDrawn(Turning(v, h))[k] {
      TurningAt(v, h, k);
    }
  }

  lemma ParallelCurvesAre(v: seq<int>, h: bool)
    ensures var odd := |v| % 2 == 1;
            ParallelCurves(Reals(v), h) ==
            AllDrawn(Parallel(if odd then v[1..] else v, if odd then v[0] else 0, h))
  {
    hide Parallel;
    var odd := |v| % 2 == 1;
    var w, across := if odd then v[1..] else v, if odd then v[0] else 0;
    ParallelSize(w, across, h);
    forall k | 0 <= k < |w| / 4 ensures ParallelCurves(Reals(v), h)[k] == AllDrawn(Parallel(w, across, h))[k] {
      ParallelAt(w, across, h, k);
      var i := |v| % 2 + 4 * k;
      assert w[4 * k] == v[i] && w[4 * k + 1] == v[i + 1] && w[4 * k + 2] == v[i + 2] && w[4 * k + 3] == v[i + 3];
    }
  }

  lemma CurvesThenLineAre(v: seq<int>, n: nat)
    requires |v| >= 8 && n == (|v| - 2) / 6
    ensures var s := Reals(v); Curves(s, n) + [Line(s[6 * n], s[6 * n + 1])] == AllDrawn(SixesThenPair(v))
  {
    var w := v[..6 * n];
    SixesThenPairIs(v);
    CurvesAre(w, n);
    hide Sixes, SixesThenPair;
    assert Curves(Reals(v), n) == Curves(Reals(w), n);
  }

  lemma LinesThenCurveAre(v: seq<int>, n: nat)
    requires |v| >= 8 && n == (|v| - 6) / 2
    ensures Lines(Reals(v), n) + [CurveAt(Reals(v), 2 * n)] == AllDrawn(PairsThenSix(v))
  {
    var w := v[..2 * n];
    PairsThenSixIs(v);
    LinesAre(w, n);
    hide Pairs, PairsThenSix;
    assert Lines(Reals(v), n) == Lines(Reals(w), n);
  }

  lemma SegmentsAre(op: byte, v: seq<int>)
    requires IsPathOp(op) && Least(op) <= |v| <= STACK_LIMIT
    ensures PathSegments(op, Reals(v)) == Some(AllDrawn(Strokes(op, v)))
  {
    hide AllDrawn, Pairs, Sixes, Alternating, Turning, Parallel, SixesThenPair, PairsThenSix;
    hide Lines, Curves, AlternatingLines, AlternatingCurves, ParallelCurves, CurveAt;
    if op == 0x05 {
      LinesAre(v, |v| / 2);
    } else if op == 0x06 || op == 0x07 {
      AlternatingLinesAre(v, op == 0x06);
    } else if op == 0x1F || op == 0x1E {
      AlternatingCurvesAre(v, op == 0x1F);
    } else if op == 0x08 {
      CurvesAre(v, |v| / 6);
    } else if op == 0x18 {
      CurvesThenLineAre(v, (|v| - 2) / 6);
    } else if op == 0x19 {
      LinesThenCurveAre(v, (|v| - 6) / 2);
    } else {
      ParallelCurvesAre(v, op == 0x1B);
    }
  }

  lemma FlexSegmentsAre(op: byte, v: seq<int>)
    requires IsFlexOp(op) && LeastFlex(op) <= |v| <= STACK_LIMIT
    ensures FlexSegments(op, Reals(v)) == Some(AllDrawn(FlexStrokes(op, v)))
  {
    var s, strokes := Reals(v), FlexStrokes(op, v);
    assert AllDrawn(strokes) == [Drawn(strokes[0]), Drawn(strokes[1])];
  }

  // ---------- The main statements ----------

  /** A drawing operator does what its strokes written out do. */
  lemma OperatorIsShorthand(font: Font, op: byte, v: seq<int>, tail: seq<byte>, depth: nat, st: State)
    requires depth <= CALL_LIMIT && st.stack == [] && AreOperands(v) && IsPathOp(op) && |v| >= Least(op)
    ensures AllFit(Strokes(op, v))
    ensures Exec(font, NewBuf(OperandBytes(v) + ([op] + tail)), depth, st)
         == Exec(font, NewBuf(LongForm(Strokes(op, v)) + tail), depth, st)
  {
    StrokesFit(op, v);
    hide Exec, OperandBytes, Step, PathSegments, Draw, LongForm, Strokes, AllDrawn, AllFit;
    var s := Reals(v);
    SegmentsAre(op, v);
    PathStep(font, op, tail, st.(stack := s));
    OperatorHere(font, v, op, tail, depth, st, st.(path := Draw(st.path, AllDrawn(Strokes(op, v)))));
    StrokesHere(font, Strokes(op, v), tail, depth, st);
  }

  /** All operands of the strokes are operands of the operator, or zero. */
  lemma StrokesFit(op: byte, v: seq<int>)
    requires AreOperands(v) && IsPathOp(op) && |v| >= Least(op)
    ensures AllFit(Strokes(op, v))
  {
    hide Pairs, Sixes, Alternating, Turning, Parallel, SixesThenPair, PairsThenSix;
    var odd := |v| % 2 == 1;
    var w, across := if odd then v[1..] else v, if odd then v[0] else 0;
    var h := op in {0x06, 0x1B, 0x1F};
    if op == 0x05 {
      PairsSize(v);
      forall k | 0 <= k < |v| / 2 ensures Fits(Pairs(v)[k]) { PairsAt(v, k); }
    } else if op == 0x06 || op == 0x07 {
      AlternatingSize(v, h);
      forall k | 0 <= k < |v| ensures Fits(Alternating(v, h)[k]) { AlternatingAt(v, h, k); }
    } else if op == 0x08 {
      SixesSize(v);
      forall k | 0 <= k < |v| / 6 ensures Fits(Sixes(v)[k]) { SixesAt(v, k); }
    } else if op == 0x1F || op == 0x1E {
      TurningSize(v, h);
      forall k | 0 <= k < |v| / 4 ensures Fits(Turning(v, h)[k]) { TurningAt(v, h, k); }
    } else if op == 0x18 {
      SixesThenPairFit(v);
    } else if op == 0x19 {
      PairsThenSixFit(v);
    } else {
      ParallelSize(w, across, h);
      forall k | 0 <= k < |w| / 4 ensures Fits(Parallel(w, across, h)[k]) {
        ParallelAt(w, across, h, k);
      }
    }
  }

  lemma {:induction false} SixesThenPairFit(v: seq<int>)
    requires AreOperands(v) && |v| >= 2
    ensures AllFit(SixesThenPair(v))
  {
    if |v| >= 8 { SixesThenPairFit(v[6..]); }
  }

  lemma {:induction false} PairsThenSixFit(v: seq<int>)
    requires AreOperands(v) && |v| >= 6
    ensures AllFit(PairsThenSix(v))
  {
    if |v| >= 8 { PairsThenSixFit(v[2..]); }
  }

  /** A flex operator does what its two curves do. */
  lemma FlexIsShorthand(font: Font, op: byte, v: seq<int>, tail: seq<byte>, depth: nat, st: State)
    requires depth <= CALL_LIMIT && st.stack == [] && AreOperands(v) && IsFlexOp(op) && |v| >= LeastFlex(op)
    requires AllFit(FlexStrokes(op, v))
    ensures Exec(font, NewBuf(OperandBytes(v) + ([0x0C, op] + tail)), depth, st)
         == Exec(font, NewBuf(LongForm(FlexStrokes(op, v)) + tail), depth, st)
  {
    hide Exec, OperandBytes, Step, FlexSegments, Draw, LongForm, FlexStrokes, AllDrawn, AllFit;
    var s, b := Reals(v), NewBuf([0x0C, op] + tail);
    var st' := st.(path := Draw(st.path, AllDrawn(FlexStrokes(op, v))));
    FlexSegmentsAre(op, v);
    FlexStep(font, op, tail, st.(stack := s));
    PushAll(font, v, [0x0C, op] + tail, depth, st);
    assert st.stack + s == s;
    ExecStep(font, b, depth, st.(stack := s));
    assert Tail(Forward(b, 2)) == tail == Tail(NewBuf(tail));
    ExecSame(font, Forward(b, 2), NewBuf(tail), depth, st');
    StrokesHere(font, FlexStrokes(op, v), tail, depth, st);
  }

  lemma FlexStep(font: Font, op: byte, tail: seq<byte>, st: State)
    requires FlexSegments(op, st.stack).Some?
    ensures var b := NewBuf([0x0C, op] + tail);
            Step(font, b, st) ==
            Next(st.(stack := [], path := Draw(st.path, FlexSegments(op, st.stack).value)), Forward(b, 2))
  {
    hide PathSegments, FlexSegments, Draw, Subr, Number, HintAction, CallAction, MoveAction;
  }

  /** With fewer operands every one of these operators rejects the glyph. */
  lemma TooFewOperands(font: Font, op: byte, v: seq<int>, tail: seq<byte>, depth: nat, st: State)
    requires depth <= CALL_LIMIT && st.stack == [] && AreOperands(v)
    ensures IsPathOp(op) && |v| < Least(op) ==>
              Exec(font, NewBuf(OperandBytes(v) + ([op] + tail)), depth, st) == Failed(st.path)
    ensures IsFlexOp(op) && |v| < LeastFlex(op) ==>
              Exec(font, NewBuf(OperandBytes(v) + ([0x0C, op] + tail)), depth, st) == Failed(st.path)
  {
    hide OperandBytes;
    var s := Reals(v);
    assert st.stack + s == s;
    if IsPathOp(op) && |v| < Least(op) {
      PushAll(font, v, [op] + tail, depth, st);
      NoPathStep(font, op, tail, st.(stack := s));
      hide Step;
    }
    if IsFlexOp(op) && |v| < LeastFlex(op) {
      PushAll(font, v, [0x0C, op] + tail, depth, st);
      NoFlexStep(font, op, tail, st.(stack := s));
      hide Step;
    }
  }

  lemma NoPathStep(font: Font, op: byte, tail: seq<byte>, st: State)
    requires IsPathOp(op) && |st.stack| < Least(op)
    ensures Step(font, NewBuf([op] + tail), st) == Error(st.path)
  {
    assert PathSegments(op, st.stack) == None;
    hide PathSegments, FlexSegments, Draw, Subr, Number, HintAction, CallAction, MoveAction;
  }

  lemma NoFlexStep(font: Font, op: byte, tail: seq<byte>, st: State)
    requires IsFlexOp(op) && |st.stack| < LeastFlex(op)
    ensures Step(font, NewBuf([0x0C, op] + tail), st) == Error(st.path)
  {
    assert FlexSegments(op, st.stack) == None;
    hide PathSegments, FlexSegments, Draw, Subr, Number, HintAction, CallAction, MoveAction;
  }

  /** The move operators use the operands on top and no others; `hmoveto` and `vmoveto` are `rmoveto` along one
      axis. */
  lemma MoveIsShorthand(font: Font, below: seq<int>, dx: int, dy: int, tail: seq<byte>, depth: nat, st: State)
    requires depth <= CALL_LIMIT && st.stack == [] && AreOperands(below) && |below| + 2 <= STACK_LIMIT
    requires Is16Bit(dx) && Is16Bit(dy)
    ensures Exec(font, NewBuf(OperandBytes(below + [dx, dy]) + ([0x15] + tail)), depth, st)
         == Exec(font, NewBuf(OperandBytes([dx, dy]) + ([0x15] + tail)), depth, st)
    ensures Exec(font, NewBuf(OperandBytes(below + [dx]) + ([0x16] + tail)), depth, st)
         == Exec(font, NewBuf(OperandBytes([dx, 0]) + ([0x15] + tail)), depth, st)
    ensures Exec(font, NewBuf(OperandBytes(below + [dy]) + ([0x04] + tail)), depth, st)
         == Exec(font, NewBuf(OperandBytes([0, dy]) + ([0x15] + tail)), depth, st)
  {
    hide Exec, OperandBytes, Step;
    MoveRun(font, 0x15, below + [dx, dy], dx, dy, tail, depth, st);
    MoveRun(font, 0x15, [dx, dy], dx, dy, tail, depth, st);
    MoveRun(font, 0x16, below + [dx], dx, 0, tail, depth, st);
    MoveRun(font, 0x15, [dx, 0], dx, 0, tail, depth, st);
    MoveRun(font, 0x04, below + [dy], 0, dy, tail, depth, st);
    MoveRun(font, 0x15, [0, dy], 0, dy, tail, depth, st);
  }

  lemma MoveRun(font: Font, op: byte, v: seq<int>, dx: int, dy: int, tail: seq<byte>, depth: nat, st: State)
    requires depth <= CALL_LIMIT && st.stack == [] && AreOperands(v) && IsMoveOp(op)
    requires |v| >= (if op == 0x15 then 2 else 1)
    requires dx == (if op == 0x15 then v[|v| - 2] else if op == 0x16 then v[|v| - 1] else 0)
    requires dy == (if op == 0x16 then 0 else v[|v| - 1])
    ensures Exec(font, NewBuf(OperandBytes(v) + ([op] + tail)), depth, st)
         == Exec(font, NewBuf(tail), depth, st.(inHeader := false, path := MoveBy(st.path, dx as real, dy as real)))
  {
    MoveStepIs(font, op, v, dx, dy, tail, st);
    hide Exec, OperandBytes, Step, MoveBy;
    OperatorHere(font, v, op, tail, depth, st, st.(inHeader := false, path := MoveBy(st.path, dx as real, dy as real)));
  }

  lemma MoveStepIs(font: Font, op: byte, v: seq<int>, dx: int, dy: int, tail: seq<byte>, st: State)
    requires st.stack == [] && AreOperands(v) && IsMoveOp(op) && |v| >= (if op == 0x15 then 2 else 1)
    requires dx == (if op == 0x15 then v[|v| - 2] else if op == 0x16 then v[|v| - 1] else 0)
    requires dy == (if op == 0x16 then 0 else v[|v| - 1])
    ensures var b := NewBuf([op] + tail);
            Step(font, b, st.(stack := Reals(v))) ==
            Next(st.(inHeader := false, path := MoveBy(st.path, dx as real, dy as real)), Forward(b, 1))
  {
    hide PathSegments, FlexSegments, Draw, Subr, Number, HintAction, CallAction, MoveBy;
  }
}
