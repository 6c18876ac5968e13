/** A subroutine call in a charstring means the same as the subroutine's code in its place. */
module SubroutineInlining {
  import opened MachineInts
  import opened CffBuffer
  import opened Charstring
  import opened Numerals
  import opened Wrappers

  /** What is left to read. */
  function Tail(b: Buf): seq<byte> { b.data[b.cursor..] }

  /** The next k bytes are there in both buffers and the same. */
  predicate Agree(b: Buf, t: Buf, k: nat) {
    k <= Remaining(b) && k <= Remaining(t) && Tail(b)[..k] == Tail(t)[..k]
  }

  lemma AgreeAt(b: Buf, t: Buf, k: nat)
    requires Agree(b, t, k)
    ensures forall i: nat | i < k :: Tail(b)[i] == Tail(t)[i]
    ensures k > 0 ==> b.data[b.cursor] == t.data[t.cursor]
  {
    assert forall i: nat | i < k :: Tail(b)[i] == Tail(b)[..k][i] && Tail(t)[i] == Tail(t)[..k][i];
    if k > 0 { assert Tail(b)[0] == b.data[b.cursor] && Tail(t)[0] == t.data[t.cursor]; }
  }

  function Forward(b: Buf, n: nat): Buf
    requires n <= Remaining(b)
  {
    b.(cursor := b.cursor + n)
  }

  // ---------- Reading depends on the bytes read ----------

  lemma WindowLocal(b: Buf, t: Buf, k: nat, n: nat)
    requires Agree(b, t, k) && n <= k
    ensures Window(b, n) == Window(t, n)
  {
    assert Window(b, n) == Tail(b)[..n] && Window(t, n) == Tail(t)[..n];
    assert Tail(b)[..n] == Tail(b)[..k][..n] && Tail(t)[..n] == Tail(t)[..k][..n];
  }

  lemma ReadLocal(b: Buf, t: Buf, k: nat, n: nat)
    requires Agree(b, t, k) && n <= k
    ensures ReadBe(b, n).value == ReadBe(t, n).value
    ensures ReadBe(b, n).rest == Forward(b, n) && ReadBe(t, n).rest == Forward(t, n)
  {
    WindowLocal(b, t, k, n);
  }

  lemma AgreeFits(b: Buf, t: Buf, k: nat)
    requires Agree(b, t, k)
    ensures k <= Remaining(b) && k <= Remaining(t)
  {
  }

  lemma AgreeForward(b: Buf, t: Buf, k: nat, n: nat)
    requires Agree(b, t, k) && n <= k
    ensures Agree(Forward(b, n), Forward(t, n), k - n)
  {
    assert Tail(Forward(b, n))[..k - n] == Tail(b)[..k][n..] && Tail(Forward(t, n))[..k - n] == Tail(t)[..k][n..];
  }

  /** How many bytes an operand takes, all of them present. */
  function NumberSize(b0: byte): nat
    requires IsNumberByte(b0)
  {
    if b0 == 255 then 5 else if b0 == 28 then 3 else if b0 <= 246 then 1 else 2
  }

  lemma NumberLocal(b: Buf, t: Buf, k: nat)
    requires Agree(b, t, k) && k > 0 && IsNumberByte(b.data[b.cursor])
    requires NumberSize(b.data[b.cursor]) <= k
    ensures t.data[t.cursor] == b.data[b.cursor]
    ensures var n := NumberSize(b.data[b.cursor]);
            Number(b) == Read(Number(t).value, Forward(b, n)) && Number(t).rest == Forward(t, n)
  {
    var b0 := b.data[b.cursor];
    AgreeAt(b, t, k);
    AgreeForward(b, t, k, 1);
    hide Agree, Tail, ReadBe;
    var b1, t1 := Forward(b, 1), Forward(t, 1);
    if b0 == 255 {
      ReadLocal(b1, t1, k - 1, 4);
    } else if b0 == 28 {
      ReadLocal(b1, t1, k - 1, 2);
    } else if b0 > 246 {
      AgreeAt(b1, t1, k - 1);
    }
  }

  /** A truncated operand uses up the buffer. */
  lemma NumberTruncated(b: Buf)
    requires b.cursor < |b.data| && IsNumberByte(b.data[b.cursor])
    requires Remaining(b) < NumberSize(b.data[b.cursor])
    ensures Number(b).rest.cursor == |b.data|
  {
  }

  // ---------- Steps ----------

  /** How many bytes a step reads when they are all there. */
  function StepSize(b: Buf, st: State): (n: nat)
    requires b.cursor < |b.data|
    ensures n > 0
  {
    var op := b.data[b.cursor];
    if op == 0x13 || op == 0x14 then
      1 + (st.maskBits + (if st.inHeader then |st.stack| / 2 else 0) + 7) / 8
    else if op == 0x0C then 2
    else if IsNumberByte(op) then NumberSize(op)
    else 1
  }

  /** The same action, with what is left moved to another buffer. */
  predicate Matches(a: Action, a': Action, rest: Buf, rest': Buf) {
    match a
    case Next(st, b) => b == rest && a' == Next(st, rest')
    case Call(st, b, callee) => b == rest && a' == Call(st, rest', callee)
    case _ => a' == a
  }

  /** A step whose bytes are all there does the same wherever they are. */
  lemma StepLocal(font: Font, b: Buf, t: Buf, k: nat, st: State)
    requires b.cursor < |b.data| && Agree(b, t, k) && StepSize(b, st) <= k
    ensures t.cursor < |t.data|
    ensures var n := StepSize(b, st);
            Matches(Step(font, b, st), Step(font, t, st), Forward(b, n), Forward(t, n))
  {
    hide PathSegments, FlexSegments, Draw, MoveBy, Subr, Number, ClosePath;
    AgreeAt(b, t, k);
    var op := b.data[b.cursor];
    if IsNumberByte(op) {
      NumberLocal(b, t, k);
    } else if op == 0x0C {
      AgreeForward(b, t, k, 1);
      AgreeAt(Forward(b, 1), Forward(t, 1), k - 1);
    }
  }

  /** A step that runs out of bytes, if it does not end the run, uses them all up. */
  lemma StepTruncated(font: Font, b: Buf, st: State)
    requires b.cursor < |b.data| && StepSize(b, st) > Remaining(b)
    ensures var a := Step(font, b, st);
            ActionPath(a) == st.path && ((a.Next? && a.b.cursor == |b.data|) || a.Error?)
  {
    hide PathSegments, FlexSegments, Draw, MoveBy, Subr, Number, ClosePath;
    NoFlex(st.stack);
    if IsNumberByte(b.data[b.cursor]) { NumberTruncated(b); }
  }

  lemma NoFlex(s: Operands)
    ensures FlexSegments(0, s) == None
  {
  }

  // ---------- Runs ----------

  lemma ExecTruncated(font: Font, b: Buf, depth: nat, st: State)
    requires depth <= CALL_LIMIT && b.cursor < |b.data| && StepSize(b, st) > Remaining(b)
    ensures Exec(font, b, depth, st) == Failed(st.path)
  {
    hide Step, StepSize;
    StepTruncated(font, b, st);
  }

  /** A run depends only on what is left to read. */
  lemma {:induction false} ExecSame(font: Font, b: Buf, t: Buf, depth: nat, st: State)
    requires depth <= CALL_LIMIT && Tail(b) == Tail(t)
    ensures Exec(font, b, depth, st) == Exec(font, t, depth, st)
    decreases CALL_LIMIT - depth, Remaining(b)
  {
    hide Step, StepSize;
    assert |Tail(b)| == Remaining(b) && |Tail(t)| == Remaining(t);
    if b.cursor < |b.data| {
      var n := StepSize(b, st);
      AgreeAt(b, t, Remaining(b));
      SameSize(b, t, st);
      if n > Remaining(b) {
        ExecTruncated(font, b, depth, st);
        ExecTruncated(font, t, depth, st);
      } else {
        StepLocal(font, b, t, Remaining(b), st);
        var b', t' := Forward(b, n), Forward(t, n);
        assert Tail(b') == Tail(b)[n..] && Tail(t') == Tail(t)[n..];
        match Step(font, b, st)
        case Next(st', _) => ExecSame(font, b', t', depth, st');
        case Call(st', _, callee) =>
          if depth < CALL_LIMIT {
            var r := Exec(font, callee, depth + 1, st');
            if r.Returned? { ExecSame(font, b', t', depth, r.st); }
          }
        case _ =>
      }
    }
  }

  lemma SameSize(b: Buf, t: Buf, st: State)
    requires b.cursor < |b.data| && t.cursor < |t.data| && b.data[b.cursor] == t.data[t.cursor]
    ensures StepSize(b, st) == StepSize(t, st)
  {
  }

  /** A run that does not fail is the same with fewer calls around it. */
  lemma {:induction false} Shallower(font: Font, b: Buf, depth: nat, d: nat, st: State)
    requires d <= depth <= CALL_LIMIT && !Exec(font, b, depth, st).Failed?
    requires Exec(font, b, depth, st).Returned? ==> d > 0
    ensures Exec(font, b, d, st) == Exec(font, b, depth, st)
    decreases CALL_LIMIT - depth, Remaining(b)
  {
    hide Step;
    match Step(font, b, st)
    case Next(st', rest) => Shallower(font, rest, depth, d, st');
    case Call(st', rest, callee) =>
      Shallower(font, callee, depth + 1, d + 1, st');
      var r := Exec(font, callee, depth + 1, st');
      if r.Returned? { Shallower(font, rest, depth, d, r.st); }
    case _ =>
  }

  /** Where the code that `b` is at returns. */
  function ReturnAt(font: Font, b: Buf, depth: nat, st: State): (p: nat)
    requires depth <= CALL_LIMIT && Exec(font, b, depth, st).Returned?
    ensures b.cursor <= p < |b.data|
    decreases CALL_LIMIT - depth, Remaining(b)
  {
    match Step(font, b, st)
    case Next(st', rest) => ReturnAt(font, rest, depth, st')
    case Call(st', rest, callee) => ReturnAt(font, rest, depth, Exec(font, callee, depth + 1, st').st)
    case _ => b.cursor
  }

  /** The code up to the return, put in front of anything else, does what it did and then goes on there. */
  lemma {:induction false} FrameInPlace(font: Font, b: Buf, t: Buf, depth: nat, d: nat, st: State)
    requires d <= depth <= CALL_LIMIT && Exec(font, b, depth, st).Returned?
    requires Agree(b, t, ReturnAt(font, b, depth, st) - b.cursor)
    ensures var n := ReturnAt(font, b, depth, st) - b.cursor;
            Exec(font, t, d, st) == Exec(font, Forward(t, n), d, Exec(font, b, depth, st).st)
    decreases CALL_LIMIT - depth, Remaining(b)
  {
    hide *;
    var n := ReturnAt(font, b, depth, st) - b.cursor;
    ReturnStep(font, b, depth, st);
    if !Step(font, b, st).Return? {
      var k := StepSize(b, st);
      SizeBeforeReturn(font, b, depth, st);
      AgreeFits(b, t, n);
      StepLocal(font, b, t, n, st);
      AgreeForward(b, t, n, k);
      AfterStep(b, k);
      AfterStep(t, k);
      StillToGo(t, k, n);
      var b', t' := Forward(b, k), Forward(t, k);
      ExecStep(font, t, d, st);
      match Step(font, b, st)
      case Next(st', _) =>
        SameNext(Step(font, b, st), Step(font, t, st), b', t');
        FrameInPlace(font, b', t', depth, d, st');
      case Call(st', _, callee) =>
        SameNext(Step(font, b, st), Step(font, t, st), b', t');
        Shallower(font, callee, depth + 1, d + 1, st');
        FrameInPlace(font, b', t', depth, d, Exec(font, callee, depth + 1, st').st);
      case _ =>
    } else {
      NoStep(t);
    }
  }

  lemma SameNext(a: Action, a': Action, rest: Buf, rest': Buf)
    requires Matches(a, a', rest, rest') && (a.Next? || a.Call?)
    ensures a.b == rest && a' == a.(b := rest')
  {
  }

  lemma AfterStep(b: Buf, k: nat)
    requires 0 < k <= Remaining(b)
    ensures Forward(b, k).data == b.data && Forward(b, k).cursor == b.cursor + k
    ensures Remaining(Forward(b, k)) == Remaining(b) - k
  {
  }

  lemma NoStep(t: Buf)
    ensures Forward(t, 0) == t
  {
  }

  lemma StillToGo(t: Buf, k: nat, n: nat)
    requires k <= n <= Remaining(t)
    ensures n - k <= Remaining(Forward(t, k)) && Forward(Forward(t, k), n - k) == Forward(t, n)
  {
  }

  /** Before it returns, the code has read all of each step. */
  lemma SizeBeforeReturn(font: Font, b: Buf, depth: nat, st: State)
    requires depth <= CALL_LIMIT && Exec(font, b, depth, st).Returned? && !Step(font, b, st).Return?
    ensures StepSize(b, st) <= ReturnAt(font, b, depth, st) - b.cursor
  {
    hide Step, StepSize;
    if StepSize(b, st) > Remaining(b) { ExecTruncated(font, b, depth, st); }
    StepAdvances(font, b, st);
  }

  /** One step of code that returns. */
  lemma ReturnStep(font: Font, b: Buf, depth: nat, st: State)
    requires depth <= CALL_LIMIT && Exec(font, b, depth, st).Returned?
    ensures b.cursor < |b.data|
    ensures var a, o, p := Step(font, b, st), Exec(font, b, depth, st), ReturnAt(font, b, depth, st);
            match a
            case Next(st', rest) => Exec(font, rest, depth, st') == o && ReturnAt(font, rest, depth, st') == p
            case Call(st', rest, callee) =>
              && depth < CALL_LIMIT
              && var r := Exec(font, callee, depth + 1, st');
                 r.Returned? && Exec(font, rest, depth, r.st) == o && ReturnAt(font, rest, depth, r.st) == p
            case Return(_) => o == Returned(st) && p == b.cursor
            case _ => false
  {
    if Step(font, b, st).Return? { ReturnKeepsState(font, b, st); }
    hide Step;
  }

  lemma ExecStep(font: Font, b: Buf, depth: nat, st: State)
    requires depth <= CALL_LIMIT && b.cursor < |b.data|
    ensures match Step(font, b, st)
            case Next(st', rest) => Exec(font, b, depth, st) == Exec(font, rest, depth, st')
            case Call(st', rest, callee) =>
              depth < CALL_LIMIT && Exec(font, callee, depth + 1, st').Returned? ==>
                Exec(font, b, depth, st) == Exec(font, rest, depth, Exec(font, callee, depth + 1, st').st)
            case _ => true
  {
    hide Step;
  }

  lemma ReturnKeepsState(font: Font, b: Buf, st: State)
    requires b.cursor < |b.data| && Step(font, b, st).Return?
    ensures Step(font, b, st).st == st
  {
  }

  lemma StepAdvances(font: Font, b: Buf, st: State)
    requires b.cursor < |b.data| && StepSize(b, st) <= Remaining(b)
    ensures var a := Step(font, b, st); a.Next? || a.Call? ==> a.b == Forward(b, StepSize(b, st))
  {
    hide Step, StepSize;
    StepLocal(font, b, b, Remaining(b), st);
  }

  /** `b` is at a call that returns. */
  ghost predicate CallReturns(font: Font, b: Buf, depth: nat, st: State) {
    && depth < CALL_LIMIT && b.cursor < |b.data|
    && var a := Step(font, b, st);
       a.Call? && Exec(font, a.callee, depth + 1, a.st).Returned?
  }

  /** The code of the subroutine that is called, up to its return. */
  ghost function Body(font: Font, b: Buf, depth: nat, st: State): seq<byte>
    requires CallReturns(font, b, depth, st)
  {
    var a := Step(font, b, st);
    a.callee.data[a.callee.cursor..ReturnAt(font, a.callee, depth + 1, a.st)]
  }

  /** A call that returns can be replaced by the subroutine's code up to its return. */
  lemma CallInPlace(font: Font, b: Buf, t: Buf, depth: nat, st: State)
    requires CallReturns(font, b, depth, st)
    requires Tail(t) == Body(font, b, depth, st) + Tail(Step(font, b, st).b)
    ensures Exec(font, t, depth, Step(font, b, st).st) == Exec(font, b, depth, st)
  {
    hide Step;
    var a := Step(font, b, st);
    var n := |Body(font, b, depth, st)|;
    assert Tail(t)[..n] == Body(font, b, depth, st) == Tail(a.callee)[..n];
    FrameInPlace(font, a.callee, t, depth + 1, depth, a.st);
    assert Tail(Forward(t, n)) == Tail(t)[n..] == Tail(a.b);
    ExecSame(font, Forward(t, n), a.b, depth, Exec(font, a.callee, depth + 1, a.st).st);
  }

  // ---------- Subroutines that end the glyph ----------

  /** One step of code that finishes the glyph. */
  lemma FinishStep(font: Font, b: Buf, depth: nat, st: State)
    requires depth <= CALL_LIMIT && Exec(font, b, depth, st).Finished?
    ensures b.cursor < |b.data| && StepSize(b, st) <= Remaining(b)
    ensures var o := Exec(font, b, depth, st);
            match Step(font, b, st)
            case Next(st', rest) => Exec(font, rest, depth, st') == o
            case Call(st', rest, callee) =>
              && depth < CALL_LIMIT
              && var r := Exec(font, callee, depth + 1, st');
                 if r.Returned? then Exec(font, rest, depth, r.st) == o else r == o
            case EndChar(path) => o == Finished(path)
            case _ => false
  {
    hide Step, StepSize;
    if b.cursor < |b.data| && StepSize(b, st) > Remaining(b) { ExecTruncated(font, b, depth, st); }
  }

  lemma ExecEnds(font: Font, b: Buf, depth: nat, st: State)
    requires depth <= CALL_LIMIT && b.cursor < |b.data|
    ensures match Step(font, b, st)
            case Call(st', _, callee) =>
              depth < CALL_LIMIT && !Exec(font, callee, depth + 1, st').Returned? ==>
                Exec(font, b, depth, st) == Exec(font, callee, depth + 1, st')
            case EndChar(path) => Exec(font, b, depth, st) == Finished(path)
            case _ => true
  {
    hide Step;
  }

  /** Code that finishes the glyph does so in front of anything else and with fewer calls around it. */
  lemma {:induction false} EndInPlace(font: Font, b: Buf, t: Buf, depth: nat, d: nat, st: State)
    requires d <= depth <= CALL_LIMIT && Exec(font, b, depth, st).Finished?
    requires Agree(b, t, Remaining(b))
    ensures Exec(font, t, d, st) == Exec(font, b, depth, st)
    decreases CALL_LIMIT - depth, Remaining(b)
  {
    hide *;
    FinishStep(font, b, depth, st);
    var n, k := Remaining(b), StepSize(b, st);
    StepLocal(font, b, t, n, st);
    StepAdvances(font, b, st);
    AgreeFits(b, t, n);
    ExecStep(font, t, d, st);
    ExecEnds(font, t, d, st);
    match Step(font, b, st)
    case Next(st', _) =>
      RestAgrees(b, t, k);
      SameNext(Step(font, b, st), Step(font, t, st), Forward(b, k), Forward(t, k));
      EndInPlace(font, Forward(b, k), Forward(t, k), depth, d, st');
    case Call(st', _, callee) =>
      RestAgrees(b, t, k);
      SameNext(Step(font, b, st), Step(font, t, st), Forward(b, k), Forward(t, k));
      var r := Exec(font, callee, depth + 1, st');
      Shallower(font, callee, depth + 1, d + 1, st');
      if r.Returned? { EndInPlace(font, Forward(b, k), Forward(t, k), depth, d, r.st); }
    case EndChar(path) => SameEnd(Step(font, b, st), Step(font, t, st), Forward(b, k), Forward(t, k));
    case _ =>
  }

  lemma RestAgrees(b: Buf, t: Buf, k: nat)
    requires Agree(b, t, Remaining(b)) && 0 < k <= Remaining(b)
    ensures k <= Remaining(t) && Remaining(Forward(b, k)) == Remaining(b) - k
    ensures Agree(Forward(b, k), Forward(t, k), Remaining(Forward(b, k)))
  {
    AgreeFits(b, t, Remaining(b));
    AgreeForward(b, t, Remaining(b), k);
  }

  lemma SameEnd(a: Action, a': Action, rest: Buf, rest': Buf)
    requires Matches(a, a', rest, rest') && a.EndChar?
    ensures a' == a
  {
  }

  // ---------- Whole charstrings ----------

  /** The state in which a run arrives `k` bytes on; `None` if it does not get there in whole steps. */
  function Arrives(font: Font, b: Buf, k: nat, depth: nat, st: State): Option<State>
    requires depth <= CALL_LIMIT && k <= Remaining(b)
    decreases k
  {
    if k == 0 then Some(st)
    else
      var n := StepSize(b, st);
      if n > k then None
      else
        match Step(font, b, st)
        case Next(st', _) => Arrives(font, Forward(b, n), k - n, depth, st')
        case Call(st', _, callee) =>
          if depth >= CALL_LIMIT then None
          else
            var r := Exec(font, callee, depth + 1, st');
            if r.Returned? then Arrives(font, Forward(b, n), k - n, depth, r.st) else None
        case _ => None
  }

  /** One step towards an arrival. */
  lemma ArriveStep(font: Font, b: Buf, k: nat, depth: nat, st: State)
    requires depth <= CALL_LIMIT && 0 < k <= Remaining(b) && Arrives(font, b, k, depth, st).Some?
    ensures b.cursor < |b.data| && StepSize(b, st) <= k
    ensures var n, v := StepSize(b, st), Arrives(font, b, k, depth, st);
            match Step(font, b, st)
            case Next(st', _) => Arrives(font, Forward(b, n), k - n, depth, st') == v
            case Call(st', _, callee) =>
              && depth < CALL_LIMIT
              && var r := Exec(font, callee, depth + 1, st');
                 r.Returned? && Arrives(font, Forward(b, n), k - n, depth, r.st) == v
            case _ => false
  {
    hide Step, StepSize, Exec;
  }

  lemma Arrived(font: Font, b: Buf, depth: nat, st: State)
    requires depth <= CALL_LIMIT
    ensures Arrives(font, b, 0, depth, st) == Some(st)
  {
  }

  /** A run goes on from where it arrives, whatever comes after the bytes on the way. */
  lemma {:induction false} ArrivalGoesOn(font: Font, b: Buf, t: Buf, k: nat, depth: nat, st: State)
    requires depth <= CALL_LIMIT && Agree(b, t, k) && Arrives(font, b, k, depth, st).Some?
    ensures Exec(font, t, depth, st) == Exec(font, Forward(t, k), depth, Arrives(font, b, k, depth, st).value)
    decreases k
  {
    hide *;
    AgreeFits(b, t, k);
    if k == 0 {
      Arrived(font, b, depth, st);
      NoStep(t);
    } else {
      ArriveStep(font, b, k, depth, st);
      var n := StepSize(b, st);
      StepLocal(font, b, t, k, st);
      AgreeForward(b, t, k, n);
      AfterStep(b, n);
      AfterStep(t, n);
      StillToGo(t, n, k);
      ExecStep(font, t, depth, st);
      var b', t' := Forward(b, n), Forward(t, n);
      match Step(font, b, st)
      case Next(st', _) =>
        SameNext(Step(font, b, st), Step(font, t, st), b', t');
        ArrivalGoesOn(font, b', t', k - n, depth, st');
      case Call(st', _, callee) =>
        SameNext(Step(font, b, st), Step(font, t, st), b', t');
        ArrivalGoesOn(font, b', t', k - n, depth, Exec(font, callee, depth + 1, st').st);
      case _ =>
    }
  }

  /** The bytes that call subroutine `n`. */
  function CallBytes(n: int, local: bool): seq<byte>
    requires -0x8000 <= n < 0x8000
  {
    EncodeNumber(n) + [if local then 0x0A else 0x1D]
  }

  /** Subroutine `n` exists and, run in state `st` one call deeper, returns. */
  ghost predicate Returns(font: Font, n: int, local: bool, depth: nat, st: State) {
    && depth < CALL_LIMIT
    && var s := Subr(if local then LocalSubrs(font) else font.gsubrs, n);
       |s.data| > 0 && Exec(font, s, depth + 1, st).Returned?
  }

  ghost function SubrBody(font: Font, n: int, local: bool, depth: nat, st: State): seq<byte>
    requires Returns(font, n, local, depth, st)
  {
    var s := Subr(if local then LocalSubrs(font) else font.gsubrs, n);
    s.data[s.cursor..ReturnAt(font, s, depth + 1, st)]
  }

  /** Calling a subroutine and having its code in place of the call mean the same, at any point of any
      charstring that a run reaches with room for the subroutine number on its stack. */
  lemma CallIsInlining(font: Font, pre: seq<byte>, n: int, local: bool, post: seq<byte>, depth: nat,
                       st0: State, st: State)
    requires depth <= CALL_LIMIT && -0x8000 <= n < 0x8000
    requires Arrives(font, NewBuf(pre), |pre|, depth, st0) == Some(st) && |st.stack| < STACK_LIMIT
    requires Returns(font, n, local, depth, st)
    ensures Exec(font, NewBuf(pre + CallBytes(n, local) + post), depth, st0)
         == Exec(font, NewBuf(pre + SubrBody(font, n, local, depth, st) + post), depth, st0)
  {
    hide Exec, Arrives, Subr, ReturnAt, EncodeNumber;
    var call, body := CallBytes(n, local), SubrBody(font, n, local, depth, st);
    ArrivesThen(font, pre, call + post, depth, st0);
    ArrivesThen(font, pre, body + post, depth, st0);
    assert pre + call + post == pre + (call + post) && pre + body + post == pre + (body + post);
    CallHere(font, n, local, post, depth, st);
  }

  /** Subroutine `n` exists and, run in state `st` one call deeper, ends the glyph. */
  ghost predicate Ends(font: Font, n: int, local: bool, depth: nat, st: State) {
    && depth < CALL_LIMIT
    && var s := Subr(if local then LocalSubrs(font) else font.gsubrs, n);
       |s.data| > 0 && Exec(font, s, depth + 1, st).Finished?
  }

  /** The same for a subroutine that ends the glyph: all of its code in place of the call. */
  lemma EndIsInlining(font: Font, pre: seq<byte>, n: int, local: bool, post: seq<byte>, depth: nat,
                      st0: State, st: State)
    requires depth <= CALL_LIMIT && -0x8000 <= n < 0x8000
    requires Arrives(font, NewBuf(pre), |pre|, depth, st0) == Some(st) && |st.stack| < STACK_LIMIT
    requires Ends(font, n, local, depth, st)
    ensures var code := Subr(if local then LocalSubrs(font) else font.gsubrs, n).data;
            && Exec(font, NewBuf(pre + CallBytes(n, local) + post), depth, st0).Finished?
            && Exec(font, NewBuf(pre + CallBytes(n, local) + post), depth, st0)
            == Exec(font, NewBuf(pre + code + post), depth, st0)
  {
    hide Exec, Arrives, Subr, EncodeNumber, Step;
    var idx := if local then LocalSubrs(font) else font.gsubrs;
    var s := Subr(idx, n);
    var call, op, t := CallBytes(n, local), [CallOp(local)], NewBuf(s.data + post);
    ArrivesThen(font, pre, call + post, depth, st0);
    ArrivesThen(font, pre, s.data + post, depth, st0);
    assert pre + call + post == pre + (call + post) && pre + s.data + post == pre + (s.data + post);
    assert call + post == EncodeNumber(n) + (op + post);
    PushHere(font, n, op + post, depth, st);
    CallStep(font, NewBuf(op + post), Pushed(st, n), st, n, local);
    ExecEnds(font, NewBuf(op + post), depth, Pushed(st, n));
    SubrAtStart(idx, n);
    assert Tail(s)[..|s.data|] == s.data == Tail(t)[..|s.data|];
    EndInPlace(font, s, t, depth + 1, depth, st);
  }

  lemma ArrivesThen(font: Font, pre: seq<byte>, post: seq<byte>, depth: nat, st0: State)
    requires depth <= CALL_LIMIT && Arrives(font, NewBuf(pre), |pre|, depth, st0).Some?
    ensures Exec(font, NewBuf(pre + post), depth, st0)
         == Exec(font, NewBuf(post), depth, Arrives(font, NewBuf(pre), |pre|, depth, st0).value)
  {
    hide Exec, Arrives;
    var b, t := NewBuf(pre), NewBuf(pre + post);
    assert Tail(b)[..|pre|] == pre == Tail(t)[..|pre|];
    ArrivalGoesOn(font, b, t, |pre|, depth, st0);
    assert Tail(Forward(t, |pre|)) == post == Tail(NewBuf(post));
    ExecSame(font, Forward(t, |pre|), NewBuf(post), depth, Arrives(font, b, |pre|, depth, st0).value);
  }

  lemma CallHere(font: Font, n: int, local: bool, post: seq<byte>, depth: nat, st: State)
    requires depth < CALL_LIMIT && -0x8000 <= n < 0x8000 && |st.stack| < STACK_LIMIT
    requires Returns(font, n, local, depth, st)
    ensures Exec(font, NewBuf(CallBytes(n, local) + post), depth, st)
         == Exec(font, NewBuf(SubrBody(font, n, local, depth, st) + post), depth, st)
  {
    hide *;
    CallBytesAre(n, local);
    var op := [CallOp(local)];
    var pushed := Pushed(st, n);
    assert EncodeNumber(n) + op + post == EncodeNumber(n) + (op + post);
    PushHere(font, n, op + post, depth, st);
    CalledHere(font, n, local, post, depth, st);
  }

  function CallOp(local: bool): byte { if local then 0x0A else 0x1D }

  function Pushed(st: State, n: int): State
    requires |st.stack| < STACK_LIMIT
  {
    st.(stack := st.stack + [n as real])
  }

  lemma CallBytesAre(n: int, local: bool)
    requires -0x8000 <= n < 0x8000
    ensures CallBytes(n, local) == EncodeNumber(n) + [CallOp(local)]
  {
  }

  lemma PushHere(font: Font, n: int, tail: seq<byte>, depth: nat, st: State)
    requires depth <= CALL_LIMIT && -0x8000 <= n < 0x8000 && |st.stack| < STACK_LIMIT
    ensures Exec(font, NewBuf(EncodeNumber(n) + tail), depth, st) == Exec(font, NewBuf(tail), depth, Pushed(st, n))
  {
    hide EncodeNumber, Exec, Step, Number, IsNumberByte;
    var enc := EncodeNumber(n);
    var b := NewBuf(enc + tail);
    var rest: Buf := RawBuf.Buf(enc + tail, |enc|);
    NumberRoundTrip(n, tail);
    PushStep(font, b, st, n, rest);
    ExecStep(font, b, depth, st);
    assert Tail(rest) == tail == Tail(NewBuf(tail));
    ExecSame(font, rest, NewBuf(tail), depth, Pushed(st, n));
  }

  lemma CalledHere(font: Font, n: int, local: bool, post: seq<byte>, depth: nat, st: State)
    requires |st.stack| < STACK_LIMIT && Returns(font, n, local, depth, st)
    ensures Exec(font, NewBuf([CallOp(local)] + post), depth, Pushed(st, n))
         == Exec(font, NewBuf(SubrBody(font, n, local, depth, st) + post), depth, st)
  {
    hide Exec, Step, Subr, ReturnAt;
    var b, t := NewBuf([CallOp(local)] + post), NewBuf(SubrBody(font, n, local, depth, st) + post);
    assert Tail(Forward(b, 1)) == post;
    CallStep(font, b, Pushed(st, n), st, n, local);
    assert Tail(t) == SubrBody(font, n, local, depth, st) + post;
    CallInPlace(font, b, t, depth, Pushed(st, n));
  }

  lemma PushStep(font: Font, b: Buf, st: State, n: int, rest: Buf)
    requires b.cursor < |b.data| && IsNumberByte(b.data[b.cursor]) && |st.stack| < STACK_LIMIT
    requires Number(b) == Read(n as real, rest)
    ensures Step(font, b, st) == Next(st.(stack := st.stack + [n as real]), rest)
  {
    hide Number;
  }

  lemma CallStep(font: Font, b: Buf, pushed: State, st: State, n: int, local: bool)
    requires b.cursor < |b.data| && b.data[b.cursor] == (if local then 0x0A else 0x1D)
    requires pushed.stack == st.stack + [n as real] && pushed == st.(stack := pushed.stack)
    requires |Subr(if local then LocalSubrs(font) else font.gsubrs, n).data| > 0
    ensures Step(font, b, pushed)
         == Call(st, Forward(b, 1), Subr(if local then LocalSubrs(font) else font.gsubrs, n))
  {
    hide Subr;
    WholeNumber(n);
    assert pushed.stack[..|pushed.stack| - 1] == st.stack;
  }

  lemma WholeNumber(n: int)
    ensures Trunc(n as real) == n
  {
  }

  /** `callsubr` calls into the local INDEX, which for fonts with an FDSelect table is the one it selects, and
      `callgsubr` into the global one, each with the bias of its own size. */
  lemma CallEnters(font: Font, local: seq<seq<byte>>, global: seq<seq<byte>>, offSize: nat, n: int, tail: seq<byte>,
                   st: State)
    requires 1 <= offSize <= 4 && |local| < 0x1_0000 && |global| < 0x1_0000 && |st.stack| < STACK_LIMIT
    requires 1 + |Concat(local)| < Pow256(offSize) && 1 + |Concat(local)| < 0x8000_0000
    requires 1 + |Concat(global)| < Pow256(offSize) && 1 + |Concat(global)| < 0x8000_0000
    requires (if font.hasFdSelect then font.cidSubrs else font.subrs) == NewBuf(EncodeIndex(local, offSize))
    requires font.gsubrs == NewBuf(EncodeIndex(global, offSize))
    ensures var k := n + (if |local| < 1240 then 107 else if |local| < 33900 then 1131 else 32768);
            var b := NewBuf([0x0A] + tail);
            0 <= k < |local| && local[k] != [] ==>
              Step(font, b, Pushed(st, n)) == Call(st, Forward(b, 1), NewBuf(local[k]))
    ensures var k := n + (if |global| < 1240 then 107 else if |global| < 33900 then 1131 else 32768);
            var b := NewBuf([0x1D] + tail);
            0 <= k < |global| && global[k] != [] ==>
              Step(font, b, Pushed(st, n)) == Call(st, Forward(b, 1), NewBuf(global[k]))
  {
    hide Subr, EncodeIndex, Concat, Pow256, Step, Bias;
    SubrNumbers(local, offSize, n);
    SubrNumbers(global, offSize, n);
    if |Subr(LocalSubrs(font), n).data| > 0 { CallStep(font, NewBuf([0x0A] + tail), Pushed(st, n), st, n, true); }
    if |Subr(font.gsubrs, n).data| > 0 { CallStep(font, NewBuf([0x1D] + tail), Pushed(st, n), st, n, false); }
  }

  /** For instance: calling a subroutine that only returns does nothing. */
  lemma EmptySubroutineDoesNothing(font: Font, post: seq<byte>)
    requires font.gsubrs == NewBuf(EncodeIndex([[0x0B]], 1))
    ensures Exec(font, NewBuf(CallBytes(-107, false) + post), 0, INITIAL) == Exec(font, NewBuf(post), 0, INITIAL)
  {
    hide Exec, Arrives, Returns, SubrBody, CallBytes, EncodeIndex;
    BareReturn(font);
    Arrived(font, NewBuf([]), 0, INITIAL);
    CallIsInlining(font, [], -107, false, post, 0, INITIAL, INITIAL);
    assert [] + CallBytes(-107, false) + post == CallBytes(-107, false) + post;
    assert [] + [] + post == post;
  }

  lemma BareReturn(font: Font)
    requires font.gsubrs == NewBuf(EncodeIndex([[0x0B]], 1))
    ensures Returns(font, -107, false, 0, INITIAL) && SubrBody(font, -107, false, 0, INITIAL) == []
  {
    hide Exec, ReturnAt, Subr, EncodeIndex;
    OnlySubroutine();
    ReturnCode(font);
  }

  lemma ReturnCode(font: Font)
    ensures var s := NewBuf([0x0B]);
            Exec(font, s, 1, INITIAL).Returned? && ReturnAt(font, s, 1, INITIAL) == 0
  {
    ReturnAction(font, INITIAL);
    hide Step;
  }

  lemma ReturnAction(font: Font, st: State)
    ensures Step(font, NewBuf([0x0B]), st) == Return(st)
  {
    hide PathSegments, FlexSegments, Draw, MoveBy, Subr, Number, ClosePath;
  }

  lemma OnlySubroutine()
    ensures Subr(NewBuf(EncodeIndex([[0x0B]], 1)), -107) == NewBuf([0x0B])
  {
    var items: seq<seq<byte>> := [[0x0B]];
    assert items[..0] == [] && Concat(items[..0]) == [];
    assert Concat(items) == [0x0B];
    assert Pow256(1) == 0x100 * Pow256(0);
    hide EncodeIndex, IndexItem, IndexCount, Concat;
    IndexRoundTrip(items, 1, 0);
  }
}
