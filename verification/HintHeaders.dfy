/** Hints draw nothing, but their number decides how many bytes of a charstring are mask bits. */
module HintHeaders {
  import opened MachineInts
  import opened CffBuffer
  import opened Charstring
  import opened SubroutineInlining

  /** Operands and a stem operator; two operands make a stem, and an odd one is the glyph's width. */
  datatype StemGroup = StemGroup(operands: seq<int>, op: byte)

  predicate AreOperands(vs: seq<int>) {
    |vs| <= STACK_LIMIT && forall i | 0 <= i < |vs| :: -0x8000 <= vs[i] < 0x8000
  }

  predicate IsStemOp(op: byte) { op in {0x01, 0x03, 0x12, 0x17} }

  predicate IsMaskOp(op: byte) { op in {0x13, 0x14} }

  predicate AreGroups(groups: seq<StemGroup>) {
    forall i | 0 <= i < |groups| :: AreOperands(groups[i].operands) && IsStemOp(groups[i].op)
  }

  function OperandBytes(vs: seq<int>): seq<byte>
    requires AreOperands(vs)
  {
    if vs == [] then [] else EncodeNumber(vs[0]) + OperandBytes(vs[1..])
  }

  function GroupBytes(groups: seq<StemGroup>): seq<byte>
    requires AreGroups(groups)
  {
    if groups == [] then []
    else OperandBytes(groups[0].operands) + ([groups[0].op] + GroupBytes(groups[1..]))
  }

  function Stems(groups: seq<StemGroup>): nat {
    if groups == [] then 0 else |groups[0].operands| / 2 + Stems(groups[1..])
  }

  function Reals(vs: seq<int>): (r: seq<real>)
    ensures |r| == |vs|
  {
    seq(|vs|, i requires 0 <= i < |vs| => vs[i] as real)
  }

  lemma {:induction false} PushAll(font: Font, vs: seq<int>, tail: seq<byte>, depth: nat, st: State)
    requires depth <= CALL_LIMIT && AreOperands(vs) && |st.stack| + |vs| <= STACK_LIMIT
    ensures Exec(font, NewBuf(OperandBytes(vs) + tail), depth, st)
         == Exec(font, NewBuf(tail), depth, st.(stack := st.stack + Reals(vs)))
    decreases |vs|
  {
    hide Exec, EncodeNumber;
    if vs == [] {
      assert OperandBytes(vs) + tail == tail && st.stack + Reals(vs) == st.stack;
    } else {
      var rest := OperandBytes(vs[1..]) + tail;
      assert OperandBytes(vs) + tail == EncodeNumber(vs[0]) + rest;
      PushHere(font, vs[0], rest, depth, st);
      PushAll(font, vs[1..], tail, depth, Pushed(st, vs[0]));
      assert Pushed(st, vs[0]).stack + Reals(vs[1..]) == st.stack + Reals(vs);
    }
  }

  /** `n` bytes behind an operator that skips them. */
  lemma SkipHere(font: Font, op: byte, skipped: seq<byte>, tail: seq<byte>, depth: nat, st: State, st': State)
    requires depth <= CALL_LIMIT
    requires var b := NewBuf([op] + (skipped + tail)); Step(font, b, st) == Next(st', Forward(b, 1 + |skipped|))
    ensures Exec(font, NewBuf([op] + (skipped + tail)), depth, st) == Exec(font, NewBuf(tail), depth, st')
  {
    hide Exec, Step;
    var b := NewBuf([op] + (skipped + tail));
    ExecStep(font, b, depth, st);
    assert Tail(Forward(b, 1 + |skipped|)) == tail == Tail(NewBuf(tail));
    ExecSame(font, Forward(b, 1 + |skipped|), NewBuf(tail), depth, st');
  }

  lemma StemStep(font: Font, op: byte, tail: seq<byte>, st: State)
    requires IsStemOp(op)
    ensures var b := NewBuf([op] + ([] + tail));
            Step(font, b, st) == Next(st.(stack := [], maskBits := st.maskBits + |st.stack| / 2), Forward(b, 1))
  {
    hide PathSegments, FlexSegments, Draw, MoveBy, Subr, Number, ClosePath;
  }

  lemma MaskStep(font: Font, op: byte, mask: seq<byte>, tail: seq<byte>, st: State)
    requires IsMaskOp(op)
    requires var bits := st.maskBits + if st.inHeader then |st.stack| / 2 else 0; |mask| == (bits + 7) / 8
    ensures var bits := st.maskBits + if st.inHeader then |st.stack| / 2 else 0;
            var b := NewBuf([op] + (mask + tail));
            Step(font, b, st) == Next(State.State([], false, bits, st.path), Forward(b, 1 + |mask|))
  {
    hide PathSegments, FlexSegments, Draw, MoveBy, Subr, Number, ClosePath;
  }

  function InHeader(bits: nat, path: Path): State { State.State([], true, bits, path) }

  lemma {:induction false} GroupsAreSkipped(font: Font, groups: seq<StemGroup>, tail: seq<byte>, depth: nat,
                                            bits: nat, path: Path)
    requires depth <= CALL_LIMIT && AreGroups(groups)
    ensures Exec(font, NewBuf(GroupBytes(groups) + tail), depth, InHeader(bits, path))
         == Exec(font, NewBuf(tail), depth, InHeader(bits + Stems(groups), path))
    decreases |groups|
  {
    hide Exec, OperandBytes, Step;
    if groups == [] {
      assert GroupBytes(groups) + tail == tail;
    } else {
      var g, rest := groups[0], GroupBytes(groups[1..]) + tail;
      var pushed := InHeader(bits, path).(stack := Reals(g.operands));
      assert GroupBytes(groups) + tail == OperandBytes(g.operands) + ([g.op] + ([] + rest));
      PushAll(font, g.operands, [g.op] + ([] + rest), depth, InHeader(bits, path));
      assert [] + Reals(g.operands) == Reals(g.operands);
      StemStep(font, g.op, rest, pushed);
      SkipHere(font, g.op, [], rest, depth, pushed, InHeader(bits + |g.operands| / 2, path));
      GroupsAreSkipped(font, groups[1..], tail, depth, bits + |g.operands| / 2, path);
    }
  }

  /** A header of stem hints that ends with a mask: it draws nothing, and whatever the mask bytes are, all of
      them are skipped, one bit for every stem, where operands in front of the mask count as stems. */
  lemma HeaderIsSkipped(font: Font, groups: seq<StemGroup>, last: seq<int>, op: byte, mask: seq<byte>,
                        tail: seq<byte>, depth: nat, path: Path)
    requires depth <= CALL_LIMIT && AreGroups(groups) && AreOperands(last) && IsMaskOp(op)
    requires 8 * (|mask| - 1) < Stems(groups) + |last| / 2 <= 8 * |mask|
    ensures Exec(font, NewBuf(GroupBytes(groups) + (OperandBytes(last) + ([op] + (mask + tail)))), depth,
                 InHeader(0, path))
         == Exec(font, NewBuf(tail), depth, State.State([], false, Stems(groups) + |last| / 2, path))
  {
    hide Exec, OperandBytes, GroupBytes, Stems, Step;
    var behind := [op] + (mask + tail);
    var st := InHeader(Stems(groups), path);
    var pushed := st.(stack := Reals(last));
    GroupsAreSkipped(font, groups, OperandBytes(last) + behind, depth, 0, path);
    PushAll(font, last, behind, depth, st);
    assert [] + Reals(last) == Reals(last);
    MaskStep(font, op, mask, tail, pushed);
    SkipHere(font, op, mask, tail, depth, pushed, State.State([], false, Stems(groups) + |last| / 2, path));
  }

  /** A mask after the header has as many bytes, whatever operands come before it. */
  lemma LaterMaskIsSkipped(font: Font, operands: seq<int>, op: byte, mask: seq<byte>, tail: seq<byte>,
                           depth: nat, bits: nat, path: Path)
    requires depth <= CALL_LIMIT && AreOperands(operands) && IsMaskOp(op)
    requires 8 * (|mask| - 1) < bits <= 8 * |mask|
    ensures var st := State.State([], false, bits, path);
            Exec(font, NewBuf(OperandBytes(operands) + ([op] + (mask + tail))), depth, st) ==
            Exec(font, NewBuf(tail), depth, st)
  {
    hide Exec, OperandBytes, Step;
    var st := State.State([], false, bits, path);
    var pushed := st.(stack := Reals(operands));
    PushAll(font, operands, [op] + (mask + tail), depth, st);
    assert [] + Reals(operands) == Reals(operands);
    MaskStep(font, op, mask, tail, pushed);
    SkipHere(font, op, mask, tail, depth, pushed, st);
  }
}
