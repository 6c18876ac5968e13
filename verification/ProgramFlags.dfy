/** The program flags that are read from one capability list and written over others. */
module ProgramFlags {
  import opened KernelCapabilities
  import opened Wrappers

  type Half = bv16

  /** The flag values, which are defined outside of the loader's own sources. */
  datatype Layout = Layout(typeMask: Half, invalidType: Half, allowDebug: Half)

  function Or(a: Half, b: Half): Half { a | b }

  function And(a: Half, b: Half): Half { a & b }

  function ApplicationTypeOf(w: Word): Half { ((w >> 14) & 0x7) as Half }

  predicate AllowsDebug(w: Word) { (w >> 17) & 1 == 1 }

  predicate ForcesDebug(w: Word) { (w >> 18) & 1 == 1 }

  function EncodeType(t: Half): Word { 0x1FFF | (((t as Word) & 0x7) << 14) }

  function EncodeDebug(allow: bool, force: bool): Word {
    0xFFFF | (if allow then 0x2_0000 else 0) | (if force then 0x4_0000 else 0)
  }

  // ---------- Reading ----------

  /** What one capability adds to the flags. */
  function WordFlags(l: Layout, w: Word): Half {
    var id := CapabilityId(w);
    if id == APPLICATION_TYPE then
      var t := And(ApplicationTypeOf(w), l.typeMask);
      if t != l.invalidType then t else 0
    else if id == DEBUG_FLAGS then if AllowsDebug(w) then l.allowDebug else 0
    else 0
  }

  function Flags(l: Layout, kac: seq<Word>): Half {
    if kac == [] then 0 else Or(Flags(l, kac[..|kac| - 1]), WordFlags(l, kac[|kac| - 1]))
  }

  method GetProgramInfoFlags(l: Layout, kac: seq<Word>) returns (flags: Half)
    ensures flags == Flags(l, kac)
  {
    hide CapabilityId, ApplicationTypeOf, AllowsDebug, Or, And, Flags;
    NoFlags(l);
    flags := 0;
    for i := 0 to |kac|
      invariant flags == Flags(l, kac[..i])
    {
      FlagsStep(l, kac, i);
      NoMore(flags);
      var w := kac[i];
      if CapabilityId(w) == APPLICATION_TYPE {
        var t := And(ApplicationTypeOf(w), l.typeMask);
        if t != l.invalidType { flags := Or(flags, t); }
      } else if CapabilityId(w) == DEBUG_FLAGS {
        if AllowsDebug(w) { flags := Or(flags, l.allowDebug); }
      }
    }
    assert kac[..|kac|] == kac;
  }

  lemma NoFlags(l: Layout)
    ensures Flags(l, []) == 0
  {
  }

  lemma FlagsStep(l: Layout, kac: seq<Word>, i: nat)
    requires i < |kac|
    ensures Flags(l, kac[..i + 1]) == Or(Flags(l, kac[..i]), WordFlags(l, kac[i]))
  {
    hide WordFlags, Or;
    assert kac[..i + 1][..i] == kac[..i];
  }

  lemma NoMore(a: Half)
    ensures Or(a, 0) == a
  {
  }

  // ---------- Writing ----------

  function Overridden(l: Layout, flags: Half, w: Word): Word {
    var id := CapabilityId(w);
    if id == APPLICATION_TYPE then EncodeType(And(flags, l.typeMask))
    else if id == DEBUG_FLAGS then EncodeDebug(And(flags, l.allowDebug) != 0, ForcesDebug(w))
    else w
  }

  function AllOverridden(l: Layout, flags: Half, kac: seq<Word>): (r: seq<Word>)
    ensures |r| == |kac|
    ensures forall i | 0 <= i < |kac| :: r[i] == Overridden(l, flags, kac[i])
  {
    if kac == [] then [] else [Overridden(l, flags, kac[0])] + AllOverridden(l, flags, kac[1..])
  }

  method SetProgramInfoFlags(l: Layout, flags: Half, kac: array<Word>)
    modifies kac
    ensures kac[..] == AllOverridden(l, flags, old(kac[..]))
  {
    hide CapabilityId, EncodeType, EncodeDebug, ForcesDebug, And;
    for i := 0 to kac.Length
      invariant forall k | 0 <= k < i :: kac[k] == Overridden(l, flags, old(kac[k]))
      invariant forall k | i <= k < kac.Length :: kac[k] == old(kac[k])
    {
      var w := kac[i];
      if CapabilityId(w) == APPLICATION_TYPE {
        kac[i] := EncodeType(And(flags, l.typeMask));
      } else if CapabilityId(w) == DEBUG_FLAGS {
        kac[i] := EncodeDebug(And(flags, l.allowDebug) != 0, ForcesDebug(w));
      }
    }
  }

  // ---------- Kinds ----------

  function Sixteenth(w: Word): Word { w >> 4 }

  predicate EndsInOnes(w: Word) { w & 0xF == 0xF }

  predicate IsEven(w: Word) { w & 1 == 0 }

  predicate EndsInOneOne(w: Word) { w & 3 == 1 }

  lemma NibbleOfOnes(w: Word)
    requires EndsInOnes(w)
    ensures CapabilityId(w) == 4 + CapabilityId(Sixteenth(w))
  {
    hide CapabilityId;
    FourOnes(w);
  }

  lemma NoOne(w: Word)
    requires IsEven(w)
    ensures CapabilityId(w) == 0
  {
  }

  lemma OneOne(w: Word)
    requires EndsInOneOne(w)
    ensures CapabilityId(w) == 1
  {
    assert (w >> 1) & 1 == 0;
    assert CapabilityId(w) == 1 + CapabilityId(w >> 1);
  }

  predicate IsTypeWord(w: Word) { w & 0x3FFF == 0x1FFF }

  predicate IsDebugWord(w: Word) { w & 0x1_FFFF == 0xFFFF }

  lemma TypeBits(w: Word)
    requires IsTypeWord(w)
    ensures var w1 := Sixteenth(w); var w2 := Sixteenth(w1);
            EndsInOnes(w) && EndsInOnes(w1) && EndsInOnes(w2) && EndsInOneOne(Sixteenth(w2))
  {
  }

  lemma TypeKind(w: Word)
    requires IsTypeWord(w)
    ensures CapabilityId(w) == APPLICATION_TYPE
  {
    hide CapabilityId, Sixteenth, EndsInOnes, EndsInOneOne, IsTypeWord;
    TypeBits(w);
    var w1 := Sixteenth(w);
    var w2 := Sixteenth(w1);
    NibbleOfOnes(w);
    NibbleOfOnes(w1);
    NibbleOfOnes(w2);
    OneOne(Sixteenth(w2));
  }

  lemma DebugBits(w: Word)
    requires IsDebugWord(w)
    ensures var w1 := Sixteenth(w); var w2 := Sixteenth(w1); var w3 := Sixteenth(w2);
            EndsInOnes(w) && EndsInOnes(w1) && EndsInOnes(w2) && EndsInOnes(w3) && IsEven(Sixteenth(w3))
  {
  }

  lemma DebugKind(w: Word)
    requires IsDebugWord(w)
    ensures CapabilityId(w) == DEBUG_FLAGS
  {
    hide CapabilityId, Sixteenth, EndsInOnes, IsEven, IsDebugWord;
    DebugBits(w);
    var w1 := Sixteenth(w);
    var w2 := Sixteenth(w1);
    var w3 := Sixteenth(w2);
    NibbleOfOnes(w);
    NibbleOfOnes(w1);
    NibbleOfOnes(w2);
    NibbleOfOnes(w3);
    NoOne(Sixteenth(w3));
  }

  lemma EncodedType(t: Half)
    ensures IsTypeWord(EncodeType(t)) && ApplicationTypeOf(EncodeType(t)) == And(t, 7)
  {
  }

  lemma EncodedDebug(allow: bool, force: bool)
    ensures var w := EncodeDebug(allow, force);
            IsDebugWord(w) && AllowsDebug(w) == allow && ForcesDebug(w) == force
  {
    if allow { if force {} else {} } else { if force {} else {} }
  }

  /** Writing the flags changes no capability's kind. */
  lemma OverrideKeepsKind(l: Layout, flags: Half, w: Word)
    ensures CapabilityId(Overridden(l, flags, w)) == CapabilityId(w)
  {
    hide CapabilityId, EncodeType, EncodeDebug, And, IsTypeWord, IsDebugWord;
    var t, allow := And(flags, l.typeMask), And(flags, l.allowDebug) != 0;
    EncodedType(t);
    EncodedDebug(allow, ForcesDebug(w));
    TypeKind(EncodeType(t));
    DebugKind(EncodeDebug(allow, ForcesDebug(w)));
  }

  // ---------- Overriding both lists keeps what was accepted ----------

  lemma {:induction false} FirstOfOverridden(l: Layout, flags: Half, id: nat, kac: seq<Word>)
    ensures FirstOf(id, AllOverridden(l, flags, kac))
         == match FirstOf(id, kac) case None => None case Some(w) => Some(Overridden(l, flags, w))
  {
    hide CapabilityId, Overridden;
    if kac != [] {
      OverrideKeepsKind(l, flags, kac[0]);
      FirstOfOverridden(l, flags, id, kac[1..]);
      assert AllOverridden(l, flags, kac)[1..] == AllOverridden(l, flags, kac[1..]);
    }
  }

  lemma {:induction false} RangeListedOverridden(l: Layout, flags: Half, w: Word, w1: Word, kac: seq<Word>)
    requires RangeListed(w, w1, kac)
    ensures RangeListed(w, w1, AllOverridden(l, flags, kac))
  {
    hide CapabilityId, RangeWithin, Overridden;
    var over := AllOverridden(l, flags, kac);
    OverrideKeepsKind(l, flags, kac[0]);
    if CapabilityId(kac[0]) != MAP_RANGE {
      RangeListedOverridden(l, flags, w, w1, kac[1..]);
      assert over[1..] == AllOverridden(l, flags, kac[1..]);
    } else {
      OthersUntouched(l, flags, kac[0]);
      OthersUntouched(l, flags, kac[1]);
      if !RangeWithin(w, w1, kac[0], kac[1]) {
        RangeListedOverridden(l, flags, w, w1, kac[2..]);
        assert over[2..] == AllOverridden(l, flags, kac[2..]);
      }
    }
  }

  lemma OthersUntouched(l: Layout, flags: Half, w: Word)
    requires CapabilityId(w) !in {APPLICATION_TYPE, DEBUG_FLAGS}
    ensures Overridden(l, flags, w) == w
  {
    hide CapabilityId;
  }

  lemma DebugStaysWithin(allow: bool, w: Word, r: Word)
    requires DebugFlagsWithin(w, r)
    ensures DebugFlagsWithin(EncodeDebug(allow, ForcesDebug(w)), EncodeDebug(allow, ForcesDebug(r)))
  {
  }

  /** The kinds for which any entry of the list may match are not written to. */
  lemma ListedOverridden(l: Layout, flags: Half, w: Word, kac: seq<Word>)
    requires WordAllowed(w, kac) && CapabilityId(w) in {SYSCALL_MASK, MAP_PAGE, INTERRUPT_PAIR}
    ensures WordAllowed(w, AllOverridden(l, flags, kac))
  {
    hide CapabilityId, SyscallIndex, SyscallBits, InterruptAllowedBy, Overridden, FirstOf;
    var id, over := CapabilityId(w), AllOverridden(l, flags, kac);
    forall i | 0 <= i < |kac| && CapabilityId(kac[i]) in {SYSCALL_MASK, MAP_PAGE, INTERRUPT_PAIR}
      ensures over[i] == kac[i]
    {
      OthersUntouched(l, flags, kac[i]);
    }
  }

  lemma WithinFirstOverridden(l: Layout, flags: Half, id: nat, w: Word, r: Word)
    requires WithinFirst(id, w, r) && CapabilityId(w) == id == CapabilityId(r)
    ensures WithinFirst(id, Overridden(l, flags, w), Overridden(l, flags, r))
  {
    hide CapabilityId, HandleTableSize, FlagsWithin, DebugFlagsWithin, EncodeType, EncodeDebug, ForcesDebug, And;
    if id == DEBUG_FLAGS {
      DebugStaysWithin(And(flags, l.allowDebug) != 0, w, r);
    }
  }

  lemma WordAllowedOverridden(l: Layout, flags: Half, w: Word, kac: seq<Word>)
    requires WordAllowed(w, kac)
    ensures WordAllowed(Overridden(l, flags, w), AllOverridden(l, flags, kac))
  {
    hide CapabilityId, FirstOf, AllOverridden, Overridden, WithinFirst, SyscallIndex, SyscallBits, InterruptAllowed;
    var id := CapabilityId(w);
    if id in {SYSCALL_MASK, MAP_PAGE, INTERRUPT_PAIR} {
      ListedOverridden(l, flags, w, kac);
      OthersUntouched(l, flags, w);
    } else {
      OverrideKeepsKind(l, flags, w);
      FirstOfOverridden(l, flags, id, kac);
      FirstOfHasKind(id, kac);
      WithinFirstOverridden(l, flags, id, w, FirstOf(id, kac).value);
    }
  }

  lemma {:induction false} FirstOfHasKind(id: nat, kac: seq<Word>)
    requires FirstOf(id, kac).Some?
    ensures CapabilityId(FirstOf(id, kac).value) == id
  {
    hide CapabilityId;
    if CapabilityId(kac[0]) != id { FirstOfHasKind(id, kac[1..]); }
  }

  /** Writing the same flags over a list and over the list that restricts it never revokes acceptance. */
  lemma {:induction false} OverrideKeepsAcceptance(l: Layout, flags: Half, a: seq<Word>, c: seq<Word>)
    requires Accepted(a, c)
    ensures Accepted(AllOverridden(l, flags, a), AllOverridden(l, flags, c))
  {
    hide CapabilityId, WordAllowed, RangeListed, Overridden;
    if a != [] {
      var id, over := CapabilityId(a[0]), AllOverridden(l, flags, a);
      OverrideKeepsKind(l, flags, a[0]);
      if id == MAP_RANGE {
        OthersUntouched(l, flags, a[0]);
        OthersUntouched(l, flags, a[1]);
        RangeListedOverridden(l, flags, a[0], a[1], c);
        OverrideKeepsAcceptance(l, flags, a[2..], c);
        assert over[2..] == AllOverridden(l, flags, a[2..]);
      } else {
        if IsPlainKind(id) { WordAllowedOverridden(l, flags, a[0], c); }
        OverrideKeepsAcceptance(l, flags, a[1..], c);
        assert over[1..] == AllOverridden(l, flags, a[1..]);
      }
    }
  }

  // ---------- Reading back what was written ----------

  predicate HasKind(id: nat, kac: seq<Word>) {
    exists i :: 0 <= i < |kac| && CapabilityId(kac[i]) == id
  }

  /** What a list that has (or has not) the two kinds says after `flags` have been written to it. */
  function ReadBack(l: Layout, flags: Half, hasType: bool, hasDebug: bool): Half {
    var t := And(flags, l.typeMask);
    Or(if hasType && t != l.invalidType then t else 0,
       if hasDebug && And(flags, l.allowDebug) != 0 then l.allowDebug else 0)
  }

  /** Reading the flags after writing them gives what was written, for the kinds that the list has. */
  lemma {:induction false} ReadAfterWrite(l: Layout, flags: Half, kac: seq<Word>)
    requires l.typeMask <= 7
    ensures Flags(l, AllOverridden(l, flags, kac))
         == ReadBack(l, flags, HasKind(APPLICATION_TYPE, kac), HasKind(DEBUG_FLAGS, kac))
  {
    hide CapabilityId, Or, And, Overridden, WordFlags, ReadBack;
    var over := AllOverridden(l, flags, kac);
    if kac == [] {
      NothingToRead(l, flags);
    } else {
      var front, w := kac[..|kac| - 1], kac[|kac| - 1];
      ReadAfterWrite(l, flags, front);
      assert over[..|over| - 1] == AllOverridden(l, flags, front);
      HasKindStep(APPLICATION_TYPE, kac);
      HasKindStep(DEBUG_FLAGS, kac);
      OverriddenFlags(l, flags, w);
      ReadMore(l, flags, HasKind(APPLICATION_TYPE, front), HasKind(DEBUG_FLAGS, front),
               CapabilityId(w) == APPLICATION_TYPE, CapabilityId(w) == DEBUG_FLAGS);
    }
  }

  lemma NothingToRead(l: Layout, flags: Half)
    ensures ReadBack(l, flags, false, false) == 0
  {
  }

  lemma HasKindStep(id: nat, kac: seq<Word>)
    requires kac != []
    ensures HasKind(id, kac) <==> HasKind(id, kac[..|kac| - 1]) || CapabilityId(kac[|kac| - 1]) == id
  {
    hide CapabilityId;
    var front := kac[..|kac| - 1];
    forall i | 0 <= i < |front| ensures front[i] == kac[i] {}
    if HasKind(id, front) {
      var i :| 0 <= i < |front| && CapabilityId(front[i]) == id;
      assert CapabilityId(kac[i]) == id;
    }
    if HasKind(id, kac) {
      var i :| 0 <= i < |kac| && CapabilityId(kac[i]) == id;
      if i < |front| { assert CapabilityId(front[i]) == id; }
    }
  }

  lemma SmallType(t: Half, mask: Half)
    requires mask <= 7
    ensures And(And(And(t, mask), 7), mask) == And(t, mask)
  {
  }

  lemma OverriddenFlags(l: Layout, flags: Half, w: Word)
    requires l.typeMask <= 7
    ensures WordFlags(l, Overridden(l, flags, w))
         == ReadBack(l, flags, CapabilityId(w) == APPLICATION_TYPE, CapabilityId(w) == DEBUG_FLAGS)
  {
    hide CapabilityId, Or, And, EncodeType, EncodeDebug, ApplicationTypeOf, AllowsDebug, ForcesDebug;
    var t, allow := And(flags, l.typeMask), And(flags, l.allowDebug) != 0;
    OverrideKeepsKind(l, flags, w);
    EncodedType(t);
    EncodedDebug(allow, ForcesDebug(w));
    SmallType(flags, l.typeMask);
    OrZero(t);
    OrZero(l.allowDebug);
    OrZero(0);
  }

  lemma OrZero(a: Half)
    ensures Or(a, 0) == a && Or(0, a) == a
  {
  }

  /** The value, if the condition holds. */
  function When(c: bool, a: Half): Half { if c then a else 0 }

  lemma WhenEither(c: bool, d: bool, a: Half)
    ensures Or(When(c, a), When(d, a)) == When(c || d, a)
  {
    hide Or;
    OrZero(a);
    OrZero(0);
    OrLaws(a, a);
  }

  lemma ReadBackIs(l: Layout, flags: Half, hasType: bool, hasDebug: bool)
    ensures var t, allow := And(flags, l.typeMask), When(And(flags, l.allowDebug) != 0, l.allowDebug);
            ReadBack(l, flags, hasType, hasDebug) ==
            Or(When(hasType, When(t != l.invalidType, t)), When(hasDebug, allow))
  {
    hide Or, And;
  }

  lemma ReadMore(l: Layout, flags: Half, type1: bool, debug1: bool, type2: bool, debug2: bool)
    ensures Or(ReadBack(l, flags, type1, debug1), ReadBack(l, flags, type2, debug2))
         == ReadBack(l, flags, type1 || type2, debug1 || debug2)
  {
    hide *;
    ReadBackIs(l, flags, type1, debug1);
    ReadBackIs(l, flags, type2, debug2);
    ReadBackIs(l, flags, type1 || type2, debug1 || debug2);
    var t := And(flags, l.typeMask);
    var x, y := When(t != l.invalidType, t), When(And(flags, l.allowDebug) != 0, l.allowDebug);
    OrPairs(When(type1, x), When(debug1, y), When(type2, x), When(debug2, y));
    WhenEither(type1, type2, x);
    WhenEither(debug1, debug2, y);
  }

  lemma OrLaws(a: Half, b: Half)
    ensures Or(a, a) == a && Or(b, a) == Or(a, b)
  {
  }

  lemma OrRegroups(a: Half, b: Half, c: Half)
    ensures Or(Or(a, b), c) == Or(a, Or(b, c))
  {
  }

  lemma OrPairs(a: Half, b: Half, c: Half, d: Half)
    ensures Or(Or(a, b), Or(c, d)) == Or(Or(a, c), Or(b, d))
  {
    hide Or;
    OrRegroups(a, b, Or(c, d));
    OrRegroups(b, c, d);
    OrLaws(b, c);
    OrRegroups(c, b, d);
    OrRegroups(a, c, Or(b, d));
  }
}
