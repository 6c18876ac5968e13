/** `stbtt__run_charstring`: the loop with its explicit subroutine stack refines nested evaluation. */
module CharstringInterpreter {
  import opened MachineInts
  import opened CffBuffer
  import opened Charstring
  import opened CharstringContext
  import opened CharstringOperators

  // ---------- The explicit stack against nested evaluation ----------

  /** What is left to do after the current frame ends with `o`: the suspended callers, innermost last. */
  function Resume(font: Font, frames: seq<Buf>, o: Outcome): Outcome
    requires |frames| <= CALL_LIMIT
  {
    if o.Returned? && frames != [] then
      var n := |frames| - 1;
      Resume(font, frames[..n], Exec(font, frames[n], n, o.st))
    else o
  }

  /** The outcome of the whole run when `frames` are suspended and `b` is running. */
  function Pending(font: Font, frames: seq<Buf>, b: Buf, st: State): Outcome
    requires |frames| <= CALL_LIMIT
  {
    Resume(font, frames, Exec(font, b, |frames|, st))
  }

  /** How many operators and operands the code from the cursor of `b` on runs, its calls included. */
  function Steps(font: Font, b: Buf, depth: nat, st: State): nat
    requires depth <= CALL_LIMIT
    decreases CALL_LIMIT - depth, Remaining(b)
  {
    if b.cursor >= |b.data| then 0
    else
      1 + match Step(font, b, st)
          case Next(st', rest) => Steps(font, rest, depth, st')
          case Call(st', rest, callee) =>
            if depth >= CALL_LIMIT then 0
            else
              var r := Exec(font, callee, depth + 1, st');
              Steps(font, callee, depth + 1, st') + if r.Returned? then Steps(font, rest, depth, r.st) else 0
          case Return(_) => 0
          case EndChar(_) => 0
          case Error(_) => 0
  }

  function ResumeSteps(font: Font, frames: seq<Buf>, o: Outcome): nat
    requires |frames| <= CALL_LIMIT
  {
    if o.Returned? && frames != [] then
      var n := |frames| - 1;
      Steps(font, frames[n], n, o.st) + ResumeSteps(font, frames[..n], Exec(font, frames[n], n, o.st))
    else 0
  }

  function PendingSteps(font: Font, frames: seq<Buf>, b: Buf, st: State): nat
    requires |frames| <= CALL_LIMIT
  {
    Steps(font, b, |frames|, st) + ResumeSteps(font, frames, Exec(font, b, |frames|, st))
  }

  lemma {:induction false} ResumeExtends(font: Font, frames: seq<Buf>, o: Outcome)
    requires |frames| <= CALL_LIMIT
    ensures o.PathOf().out <= Resume(font, frames, o).PathOf().out
    decreases |frames|
  {
    if o.Returned? && frames != [] {
      var n := |frames| - 1;
      ExecExtends(font, frames[n], n, o.st);
      ResumeExtends(font, frames[..n], Exec(font, frames[n], n, o.st));
    }
  }

  /** Where the run goes on after a step: the pending outcome is as it was, one step fewer is pending, and the
      path so far is part of the outcome. */
  ghost predicate GoesOn(font: Font, frames: seq<Buf>, b: Buf, st: State, frames': seq<Buf>, b': Buf, st': State)
    requires |frames| <= CALL_LIMIT
  {
    && |frames'| <= CALL_LIMIT
    && Pending(font, frames', b', st') == Pending(font, frames, b, st)
    && PendingSteps(font, frames', b', st') == PendingSteps(font, frames, b, st) - 1
    && st'.path.out <= Pending(font, frames, b, st).PathOf().out
  }

  lemma NextPending(font: Font, frames: seq<Buf>, b: Buf, st: State)
    requires |frames| <= CALL_LIMIT && b.cursor < |b.data| && Step(font, b, st).Next?
    ensures GoesOn(font, frames, b, st, frames, Step(font, b, st).b, Step(font, b, st).st)
  {
    hide Step;
    PendingExtends(font, frames, Step(font, b, st).b, Step(font, b, st).st);
  }

  lemma CallPending(font: Font, frames: seq<Buf>, b: Buf, st: State)
    requires |frames| < CALL_LIMIT && b.cursor < |b.data| && Step(font, b, st).Call?
    ensures var a := Step(font, b, st); GoesOn(font, frames, b, st, frames + [a.b], a.callee, a.st)
  {
    hide Step;
    var a := Step(font, b, st);
    var suspended := frames + [a.b];
    assert suspended[..|frames|] == frames && suspended[|frames|] == a.b;
    PendingExtends(font, suspended, a.callee, a.st);
    CalledFrame(font, frames, a.b, Exec(font, a.callee, |frames| + 1, a.st));
    hide Resume, ResumeSteps;
  }

  /** What follows the frame of a call. */
  lemma CalledFrame(font: Font, frames: seq<Buf>, rest: Buf, r: Outcome)
    requires |frames| < CALL_LIMIT
    ensures var n := |frames|;
            var o := if r.Returned? then Exec(font, rest, n, r.st) else r;
            && Resume(font, frames + [rest], r) == Resume(font, frames, o)
            && ResumeSteps(font, frames + [rest], r) ==
               (if r.Returned? then Steps(font, rest, n, r.st) else 0) + ResumeSteps(font, frames, o)
  {
    hide Exec, Steps;
    assert (frames + [rest])[..|frames|] == frames;
  }

  lemma ReturnPending(font: Font, frames: seq<Buf>, b: Buf, st: State)
    requires 0 < |frames| <= CALL_LIMIT && b.cursor < |b.data| && Step(font, b, st).Return?
    ensures GoesOn(font, frames, b, st, frames[..|frames| - 1], frames[|frames| - 1], Step(font, b, st).st)
  {
    hide Step;
    PendingExtends(font, frames[..|frames| - 1], frames[|frames| - 1], Step(font, b, st).st);
  }

  lemma LastPending(font: Font, frames: seq<Buf>, b: Buf, st: State)
    requires |frames| <= CALL_LIMIT && b.cursor < |b.data|
    ensures var total := Pending(font, frames, b, st);
            match Step(font, b, st)
            case Next(_, _) => true
            case Call(st', _, _) => |frames| == CALL_LIMIT ==> total == Failed(st'.path)
            case Return(st') => frames == [] ==> total == Failed(st'.path)
            case EndChar(path) => total == Finished(path)
            case Error(path) => total == Failed(path)
  {
    hide Step;
  }

  /** One step of the machine leaves the pending outcome as it was and the pending steps one fewer, or
      is the end of the run; and the vertices the step adds are part of that outcome. */
  lemma PendingStep(font: Font, frames: seq<Buf>, b: Buf, st: State)
    requires |frames| <= CALL_LIMIT && b.cursor < |b.data|
    ensures var total := Pending(font, frames, b, st);
            var a := Step(font, b, st);
            && ActionPath(a).out <= total.PathOf().out
            && match a
               case Next(st', rest) => GoesOn(font, frames, b, st, frames, rest, st')
               case Call(st', rest, callee) =>
                 if |frames| == CALL_LIMIT then total == Failed(st'.path)
                 else GoesOn(font, frames, b, st, frames + [rest], callee, st')
               case Return(st') =>
                 if frames == [] then total == Failed(st'.path)
                 else GoesOn(font, frames, b, st, frames[..|frames| - 1], frames[|frames| - 1], st')
               case EndChar(path) => total == Finished(path)
               case Error(path) => total == Failed(path)
  {
    hide Step, Pending, PendingSteps;
    LastPending(font, frames, b, st);
    match Step(font, b, st)
    case Next(_, _) => NextPending(font, frames, b, st);
    case Call(_, _, _) => if |frames| < CALL_LIMIT { CallPending(font, frames, b, st); }
    case Return(_) => if frames != [] { ReturnPending(font, frames, b, st); }
    case EndChar(_) =>
    case Error(_) =>
  }

  lemma PendingExtends(font: Font, frames: seq<Buf>, b: Buf, st: State)
    requires |frames| <= CALL_LIMIT
    ensures st.path.out <= Pending(font, frames, b, st).PathOf().out
  {
    hide Exec, Resume;
    ExecExtends(font, b, |frames|, st);
    ResumeExtends(font, frames, Exec(font, b, |frames|, st));
  }

  lemma PendingAtStart(font: Font, index: int)
    ensures Pending(font, [], IndexItem(font.charstrings, index), INITIAL) == Glyph(font, index)
  {
  }

  lemma PendingAtEnd(font: Font, frames: seq<Buf>, b: Buf, st: State)
    requires |frames| <= CALL_LIMIT && b.cursor >= |b.data|
    ensures Pending(font, frames, b, st) == Failed(st.path)
  {
  }

  // ---------- The interpreter ----------

  method HintOperator(op: byte, sp: nat, inHeader: bool, maskBits: nat, b: Buf, ghost st: State)
    returns (inHeader': bool, maskBits': nat, b': Buf)
    requires IsHintOp(op) && |st.stack| == sp && st.inHeader == inHeader && st.maskBits == maskBits
    ensures HintAction(op, st, b) == Next(State.State([], inHeader', maskBits', st.path), b')
  {
    inHeader', maskBits', b' := inHeader, maskBits, b;
    if op == 0x13 || op == 0x14 {
      if inHeader { maskBits' := maskBits' + sp / 2; }
      inHeader' := false;
      b' := Skip(b, (maskBits' + 7) / 8);
    } else {
      maskBits' := maskBits' + sp / 2;
    }
  }

  method MoveOperator(op: byte, c: Context, s: array<real>, sp: nat, ghost st: State, ghost b: Buf) returns (ok: bool)
    requires IsMoveOp(op) && c.Valid() && c.path == st.path
    requires s.Length == STACK_LIMIT && sp <= STACK_LIMIT && s[..sp] == st.stack
    requires c.Fits(|ActionPath(MoveAction(op, st, b)).out|)
    modifies c, c.pvertices
    ensures c.Valid()
    ensures MoveAction(op, st, b) ==
            if ok then Next(st.(stack := [], inHeader := false, path := c.path), b) else Error(c.path)
  {
    hide MoveBy, Context.Valid;
    if op == 0x15 {
      if sp < 2 { return false; }
      c.MoveTo(s[sp - 2], s[sp - 1]);
    } else {
      if sp < 1 { return false; }
      if op == 0x04 {
        c.MoveTo(0.0, s[sp - 1]);
      } else {
        c.MoveTo(s[sp - 1], 0.0);
      }
    }
    return true;
  }

  method GetSubr(idx: Buf, n: int) returns (b: Buf)
    ensures b == Subr(idx, n)
  {
    var count := GetBigEndian(Seek(idx, 0), 2);
    var bias := 107;
    if count.value >= 33900 { bias := 32768; } else if count.value >= 1240 { bias := 1131; }
    var i := n + bias;
    if i < 0 || i >= count.value { return EMPTY; }
    b := GetIndexItem(idx, i);
  }

  /** The immediate whose first byte `b0` was just read from `start`. */
  method ReadNumber(b0: byte, b: Buf, ghost start: Buf) returns (r: Read<real>)
    requires start.cursor < |start.data| && IsNumberByte(start.data[start.cursor]) && Get8(start) == Read(b0, b)
    ensures r == Number(start)
  {
    if b0 == 255 {
      var v := GetBigEndian(b, 4);
      r := Read(ToInt32(v.value) as real / 65536.0, v.rest);
    } else {
      var v := CffInt(Skip(b, -1));
      r := Read(ToInt16(v.value) as real, v.rest);
    }
  }

  /** `stbtt__cff_int`, for the operands a charstring can hold. */
  method CffInt(b: Buf) returns (r: Read<int>)
    requires b.cursor < |b.data| && IsNumberByte(b.data[b.cursor]) && b.data[b.cursor] != 255
    ensures Number(b) == Read(ToInt16(r.value) as real, r.rest)
  {
    var b0 := Get8(b);
    if 32 <= b0.value <= 246 { return Read(b0.value - 139, b0.rest); }
    if 247 <= b0.value <= 250 {
      var b1 := Get8(b0.rest);
      return Read((b0.value - 247) * 256 + b1.value + 108, b1.rest);
    }
    if 251 <= b0.value <= 254 {
      var b1 := Get8(b0.rest);
      return Read(-(b0.value - 251) * 256 - b1.value - 108, b1.rest);
    }
    var v := GetBigEndian(b0.rest, 2);
    r := Read(v.value, v.rest);
  }

  predicate ClearsStack(op: byte) { IsHintOp(op) || IsMoveOp(op) || IsPathOp(op) || op == 0x0C }

  /** The operators that use up the whole operand stack. */
  method StackClearingOperator(op: byte, c: Context, s: array<real>, sp: nat, inHeader: bool, maskBits: nat, b: Buf,
                               ghost font: Font, ghost st: State, ghost start: Buf)
    returns (ok: bool, inHeader': bool, maskBits': nat, b': Buf)
    requires ClearsStack(op) && start.cursor < |start.data| && Get8(start) == Read(op, b)
    requires c.Valid() && s.Length == STACK_LIMIT && sp <= STACK_LIMIT
    requires st == State.State(s[..sp], inHeader, maskBits, c.path)
    requires c.Fits(|ActionPath(Step(font, start, st)).out|)
    modifies c, c.pvertices
    ensures c.Valid()
    ensures Step(font, start, st) ==
            if ok then Next(State.State([], inHeader', maskBits', c.path), b') else Error(c.path)
  {
    hide Context.Valid, PathSegments, FlexSegments, MoveBy, Draw, HintAction, MoveAction, CallAction, PushAction;
    ok, inHeader', maskBits', b' := true, inHeader, maskBits, b;
    if IsHintOp(op) {
      inHeader', maskBits', b' := HintOperator(op, sp, inHeader, maskBits, b, st);
    } else if IsMoveOp(op) {
      inHeader' := false;
      ok := MoveOperator(op, c, s, sp, st, b);
    } else if IsPathOp(op) {
      ok := PathOperator(op, c, s, sp, st.stack);
    } else {
      var b1 := Get8(b);
      b' := b1.rest;
      ok := FlexOperator(b1.value, c, s, sp, st.stack);
    }
  }

  /** The remaining operators, and operands. */
  lemma StepOther(font: Font, b: Buf, st: State)
    requires b.cursor < |b.data| && !ClearsStack(b.data[b.cursor])
    ensures var op := b.data[b.cursor];
            Step(font, b, st) ==
            if op == 0x0A || op == 0x1D then CallAction(font, op, st, Get8(b).rest)
            else if op == 0x0B then Return(st)
            else if op == 0x0E then EndChar(ClosePath(st.path))
            else if IsNumberByte(op) then PushAction(st, b)
            else Error(st.path)
  {
    hide HintAction, MoveAction, CallAction, PushAction, ClosePath, FlexSegments, PathSegments;
  }

  /** `callsubr` and `callgsubr`: suspends `b` and finds the subroutine to run. */
  method CallOperator(op: byte, font: Font, s: array<real>, sp: nat, subrStack: array<Buf>, height: nat, b: Buf,
                      subrs: Buf, hasSubrs: bool, ghost st: State)
    returns (ok: bool, callee: Buf, subrs': Buf, hasSubrs': bool)
    requires op == 0x0A || op == 0x1D
    requires sp <= STACK_LIMIT == s.Length && s[..sp] == st.stack
    requires height <= CALL_LIMIT == subrStack.Length
    requires subrs == if hasSubrs then LocalSubrs(font) else font.subrs
    modifies subrStack
    ensures subrs' == if hasSubrs' then LocalSubrs(font) else font.subrs
    ensures ok ==> sp > 0 && height < CALL_LIMIT && subrStack[..height + 1] == old(subrStack[..height]) + [b]
    ensures ok ==> CallAction(font, op, st, b) == Call(st.(stack := s[..sp - 1]), b, callee)
    ensures !ok ==> var a := CallAction(font, op, st, b);
                    ActionPath(a) == st.path && (a.Error? || (a.Call? && height == CALL_LIMIT))
  {
    hide Subr;
    ok, callee, subrs', hasSubrs' := false, b, subrs, hasSubrs;
    if op == 0x0A && !hasSubrs {
      if font.hasFdSelect { subrs' := font.cidSubrs; }
      hasSubrs' := true;
    }
    if sp < 1 { return; }
    var v := Trunc(s[sp - 1]);
    if height >= CALL_LIMIT { return; }
    subrStack[height] := b;
    callee := GetSubr(if op == 0x0A then subrs' else font.gsubrs, v);
    if |callee.data| == 0 { return; }
    SubrAtStart(if op == 0x0A then subrs' else font.gsubrs, v);
    callee := Seek(callee, 0);
    ok := true;
  }

  /** Pushes the operand that starts with `op`; other bytes are reserved operators. */
  method PushOperator(op: byte, s: array<real>, sp: nat, b: Buf, ghost st: State, ghost start: Buf)
    returns (ok: bool, b': Buf)
    requires start.cursor < |start.data| && Get8(start) == Read(op, b)
    requires sp <= STACK_LIMIT == s.Length && s[..sp] == st.stack
    modifies s
    ensures ok ==> sp < STACK_LIMIT && IsNumberByte(op) && PushAction(st, start) == Next(st.(stack := s[..sp + 1]), b')
    ensures !ok ==> IsNumberByte(op) ==> PushAction(st, start) == Error(st.path)
  {
    hide Number;
    b' := b;
    if !IsNumberByte(op) { return false, b'; }
    var v := ReadNumber(op, b, start);
    b' := v.rest;
    if sp >= STACK_LIMIT { return false, b'; }
    s[sp] := v.value;
    assert s[..sp + 1] == st.stack + [v.value];
    ok := true;
  }

  lemma FirstByte(b: Buf)
    requires b.cursor < |b.data|
    ensures Get8(b).value == b.data[b.cursor]
  {
  }

  // ---------- One turn of the loop ----------

  /** The variables of the run. */
  datatype Locals = Locals(b: Buf, sp: nat, inHeader: bool, maskBits: nat, height: nat, subrs: Buf, hasSubrs: bool)

  datatype Status = Running | Accepted | Rejected

  /** The variables and the two stacks stand for the state `st` with `frames` suspended. */
  ghost predicate Represents(l: Locals, font: Font, c: Context, s: array<real>, subrStack: array<Buf>,
                             frames: seq<Buf>, st: State)
    reads c, c.pvertices, s, subrStack
  {
    && c.Valid()
    && l.sp <= STACK_LIMIT == s.Length && l.height <= CALL_LIMIT == subrStack.Length
    && l.subrs == (if l.hasSubrs then LocalSubrs(font) else font.subrs)
    && st == State.State(s[..l.sp], l.inHeader, l.maskBits, c.path)
    && frames == subrStack[..l.height]
  }

  /** What a turn has to achieve: the run goes on, or it ends with the path of the context. */
  ghost predicate Turned(font: Font, frames: seq<Buf>, b: Buf, st: State, status: Status, frames': seq<Buf>, b': Buf,
                         st': State, path: Path)
    requires |frames| <= CALL_LIMIT
  {
    match status
    case Running => GoesOn(font, frames, b, st, frames', b', st')
    case Accepted => Pending(font, frames, b, st) == Finished(path)
    case Rejected => Pending(font, frames, b, st) == Failed(path)
  }

  /** The operators that use up the operand stack. */
  method ClearingTurn(op: byte, b: Buf, l: Locals, font: Font, c: Context, s: array<real>, subrStack: array<Buf>,
                      ghost frames: seq<Buf>, ghost st: State)
    returns (status: Status, l': Locals, ghost st': State)
    requires Represents(l, font, c, s, subrStack, frames, st)
    requires l.b.cursor < |l.b.data| && Get8(l.b) == Read(op, b) && ClearsStack(op)
    requires c.Fits(|Pending(font, frames, l.b, st).PathOf().out|)
    modifies c, c.pvertices
    ensures c.Valid()
    ensures status == Running ==> Represents(l', font, c, s, subrStack, frames, st')
    ensures Turned(font, frames, l.b, st, status, frames, l'.b, st', c.path)
  {
    hide Context.Valid, Pending, PendingSteps, GoesOn, Step, Get8, ClearsStack, LocalSubrs;
    PendingStep(font, frames, l.b, st);
    var ok, inHeader, maskBits, b' :=
      StackClearingOperator(op, c, s, l.sp, l.inHeader, l.maskBits, b, font, st, l.b);
    status := if ok then Running else Rejected;
    l' := l.(b := b', sp := 0, inHeader := inHeader, maskBits := maskBits);
    st' := State.State([], inHeader, maskBits, c.path);
  }

  /** Subroutine calls. */
  method CallTurn(op: byte, b: Buf, l: Locals, font: Font, c: Context, s: array<real>, subrStack: array<Buf>,
                  ghost frames: seq<Buf>, ghost st: State)
    returns (status: Status, l': Locals, ghost frames': seq<Buf>, ghost st': State)
    requires Represents(l, font, c, s, subrStack, frames, st)
    requires l.b.cursor < |l.b.data| && Get8(l.b) == Read(op, b) && (op == 0x0A || op == 0x1D)
    modifies subrStack
    ensures c.Valid()
    ensures status == Running ==> Represents(l', font, c, s, subrStack, frames', st')
    ensures Turned(font, frames, l.b, st, status, frames', l'.b, st', c.path)
  {
    hide Context.Valid, Pending, PendingSteps, GoesOn, Step, LocalSubrs, CallAction, Trunc, Get8;
    PendingStep(font, frames, l.b, st);
    StepCall(font, l.b, op, b, st);
    var ok, callee, subrs, hasSubrs :=
      CallOperator(op, font, s, l.sp, subrStack, l.height, b, l.subrs, l.hasSubrs, st);
    l' := l.(b := callee, subrs := subrs, hasSubrs := hasSubrs);
    frames', st' := frames, st;
    status := Rejected;
    if ok {
      status := Running;
      l' := l'.(sp := l.sp - 1, height := l.height + 1);
      frames', st' := frames + [b], st.(stack := s[..l.sp - 1]);
    }
  }

  method ReturnTurn(l: Locals, font: Font, c: Context, s: array<real>, subrStack: array<Buf>,
                    ghost frames: seq<Buf>, ghost st: State)
    returns (status: Status, l': Locals, ghost frames': seq<Buf>)
    requires Represents(l, font, c, s, subrStack, frames, st)
    requires l.b.cursor < |l.b.data| && l.b.data[l.b.cursor] == 0x0B
    ensures status == Running ==> Represents(l', font, c, s, subrStack, frames', st)
    ensures Turned(font, frames, l.b, st, status, frames', l'.b, st, c.path)
  {
    hide Context.Valid, Pending, PendingSteps, GoesOn, Step, LocalSubrs;
    PendingStep(font, frames, l.b, st);
    StepReturn(font, l.b, st);
    frames' := frames;
    if l.height <= 0 { return Rejected, l, frames'; }
    status, l' := Running, l.(b := subrStack[l.height - 1], height := l.height - 1);
    frames' := frames[..|frames| - 1];
    assert subrStack[..l.height - 1] == frames[..|frames| - 1];
  }

  /** `endchar`. */
  method EndTurn(l: Locals, font: Font, c: Context, s: array<real>, subrStack: array<Buf>,
                 ghost frames: seq<Buf>, ghost st: State)
    requires Represents(l, font, c, s, subrStack, frames, st)
    requires l.b.cursor < |l.b.data| && l.b.data[l.b.cursor] == 0x0E
    requires c.Fits(|Pending(font, frames, l.b, st).PathOf().out|)
    modifies c, c.pvertices
    ensures c.Valid() && Pending(font, frames, l.b, st) == Finished(c.path)
  {
    hide Context.Valid, Pending, PendingSteps, GoesOn, Step, LocalSubrs, ClosePath;
    PendingStep(font, frames, l.b, st);
    StepEnd(font, l.b, st);
    c.CloseShape();
  }

  /** Operands, and bytes that are neither operand nor operator. */
  method PushTurn(op: byte, b: Buf, l: Locals, font: Font, c: Context, s: array<real>, subrStack: array<Buf>,
                  ghost frames: seq<Buf>, ghost st: State)
    returns (status: Status, l': Locals, ghost st': State)
    requires Represents(l, font, c, s, subrStack, frames, st)
    requires l.b.cursor < |l.b.data| && Get8(l.b) == Read(op, b)
    requires !ClearsStack(op) && op !in {0x0A, 0x1D, 0x0B, 0x0E}
    modifies s
    ensures c.Valid()
    ensures status == Running ==> Represents(l', font, c, s, subrStack, frames, st')
    ensures Turned(font, frames, l.b, st, status, frames, l'.b, st', c.path)
  {
    hide Context.Valid, Pending, PendingSteps, GoesOn, Step, LocalSubrs, Get8, PushAction, IsNumberByte, ClearsStack;
    PendingStep(font, frames, l.b, st);
    StepPush(font, l.b, op, b, st);
    var ok, b' := PushOperator(op, s, l.sp, b, st, l.b);
    l', st' := l.(b := b'), st;
    status := Rejected;
    if ok {
      status := Running;
      l' := l'.(sp := l.sp + 1);
      st' := st.(stack := s[..l.sp + 1]);
    }
  }

  lemma StepCall(font: Font, start: Buf, op: byte, b: Buf, st: State)
    requires start.cursor < |start.data| && Get8(start) == Read(op, b) && (op == 0x0A || op == 0x1D)
    ensures Step(font, start, st) == CallAction(font, op, st, b)
  {
    hide CallAction, PushAction, Step;
    StepOther(font, start, st);
  }

  lemma StepReturn(font: Font, b: Buf, st: State)
    requires b.cursor < |b.data| && b.data[b.cursor] == 0x0B
    ensures Step(font, b, st) == Return(st)
  {
    hide CallAction, PushAction, Step;
    StepOther(font, b, st);
  }

  lemma StepEnd(font: Font, b: Buf, st: State)
    requires b.cursor < |b.data| && b.data[b.cursor] == 0x0E
    ensures Step(font, b, st) == EndChar(ClosePath(st.path))
  {
    hide CallAction, PushAction, Step, ClosePath;
    StepOther(font, b, st);
  }

  lemma StepPush(font: Font, start: Buf, op: byte, b: Buf, st: State)
    requires start.cursor < |start.data| && Get8(start) == Read(op, b)
    requires !ClearsStack(op) && op !in {0x0A, 0x1D, 0x0B, 0x0E}
    ensures Step(font, start, st) == if IsNumberByte(op) then PushAction(st, start) else Error(st.path)
  {
    hide CallAction, PushAction, Step, IsNumberByte, ClearsStack;
    StepOther(font, start, st);
  }

  /** One turn: the next byte decides. */
  method RunTurn(l: Locals, font: Font, c: Context, s: array<real>, subrStack: array<Buf>,
                 ghost frames: seq<Buf>, ghost st: State)
    returns (status: Status, l': Locals, ghost frames': seq<Buf>, ghost st': State)
    requires Represents(l, font, c, s, subrStack, frames, st) && l.b.cursor < |l.b.data|
    requires c.Fits(|Pending(font, frames, l.b, st).PathOf().out|)
    modifies c, c.pvertices, s, subrStack
    ensures c.Valid()
    ensures status == Running ==> Represents(l', font, c, s, subrStack, frames', st')
    ensures |frames| <= CALL_LIMIT && Turned(font, frames, l.b, st, status, frames', l'.b, st', c.path)
  {
    hide Context.Valid, Pending, PendingSteps, GoesOn, LocalSubrs, ClearsStack, Get8;
    FirstByte(l.b);
    var b0 := Get8(l.b);
    var op, b := b0.value, b0.rest;
    l', frames', st' := l, frames, st;
    if ClearsStack(op) {
      status, l', st' := ClearingTurn(op, b, l, font, c, s, subrStack, frames, st);
    } else if op == 0x0A || op == 0x1D {
      status, l', frames', st' := CallTurn(op, b, l, font, c, s, subrStack, frames, st);
    } else if op == 0x0B {
      status, l', frames' := ReturnTurn(l, font, c, s, subrStack, frames, st);
    } else if op == 0x0E {
      EndTurn(l, font, c, s, subrStack, frames, st);
      status := Accepted;
    } else {
      status, l', st' := PushTurn(op, b, l, font, c, s, subrStack, frames, st);
    }
  }

  /** Runs one glyph on any font bytes. It terminates, keeps the operand and subroutine stacks in
      bounds, and draws exactly the path the nested evaluation denotes, whether it counts or stores. */
  method RunCharstring(font: Font, index: int, c: Context) returns (ok: bool)
    requires c.Valid() && c.path == EMPTY_PATH
    requires c.Fits(|Glyph(font, index).PathOf().out|)
    modifies c, c.pvertices
    ensures c.Valid()
    ensures c.path == Glyph(font, index).PathOf() && ok == Glyph(font, index).Finished?
  {
    hide Context.Valid, Pending, PendingSteps, Glyph, IndexItem, LocalSubrs;
    ghost var total := Glyph(font, index);
    var s := new real[STACK_LIMIT](_ => 0.0);
    var subrStack := new Buf[CALL_LIMIT](_ => EMPTY);
    var b := GetIndexItem(font.charstrings, index);
    var l := Locals(b, 0, true, 0, 0, font.subrs, false);
    ghost var st, frames := INITIAL, subrStack[..0];
    PendingAtStart(font, index);
    while l.b.cursor < |l.b.data|
      invariant Represents(l, font, c, s, subrStack, frames, st)
      invariant Pending(font, frames, l.b, st) == total
      decreases PendingSteps(font, frames, l.b, st)
    {
      var status;
      status, l, frames, st := RunTurn(l, font, c, s, subrStack, frames, st);
      if status != Running { return status == Accepted; }
    }
    PendingAtEnd(font, frames, l.b, st);
    return false;
  }
}
