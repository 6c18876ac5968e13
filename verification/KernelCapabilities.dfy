/** Kernel capability lists: when a list may be used under a restricting list. */
module KernelCapabilities {
  import opened Wrappers

  type Word = bv32

  // ---------- Words ----------

  /** The kind of a capability: its number of trailing one bits. */
  function CapabilityId(w: Word): nat
    decreases w
  {
    if w & 1 == 0 then 0 else assert w >> 1 < w; 1 + CapabilityId(w >> 1)
  }

  const KERNEL_FLAGS := 3
  const SYSCALL_MASK := 4
  const MAP_RANGE := 6
  const MAP_PAGE := 7
  const INTERRUPT_PAIR := 11
  const APPLICATION_TYPE := 13
  const KERNEL_VERSION := 14
  const HANDLE_TABLE := 15
  const DEBUG_FLAGS := 16
  const EMPTY := 32

  // Fields start behind the identifying bits.

  function MaximumThreadPriority(w: Word): nat { ((w >> 4) & 0x3F) as nat }
  function MinimumThreadPriority(w: Word): nat { ((w >> 10) & 0x3F) as nat }
  function MinimumCoreId(w: Word): nat { ((w >> 16) & 0xFF) as nat }
  function MaximumCoreId(w: Word): nat { ((w >> 24) & 0xFF) as nat }
  function SyscallBits(w: Word): Word { (w >> 5) & 0xFF_FFFF }
  function SyscallIndex(w: Word): Word { (w >> 29) & 0x7 }
  function AddressSize(w: Word): (n: nat)
    ensures n < 0x100_0000
  {
    (((w >> 7) & 0xFF_FFFF) as bv24) as nat
  }

  predicate RangeFlag(w: Word) { (w >> 31) & 1 == 1 }
  function InterruptId0(w: Word): Word { (w >> 12) & 0x3FF }
  function InterruptId1(w: Word): Word { (w >> 22) & 0x3FF }
  function HandleTableSize(w: Word): nat { ((w >> 16) & 0x3FF) as nat }

  const RANGE_SIZE_MAX := 0x10_0000
  const EMPTY_INTERRUPT: Word := 0x3FF

  // ---------- One capability against one restriction ----------

  predicate FlagsWithin(w: Word, r: Word) {
    && MinimumThreadPriority(r) <= MinimumThreadPriority(w) <= MaximumThreadPriority(w) <= MaximumThreadPriority(r)
    && MinimumCoreId(r) <= MinimumCoreId(w) <= MaximumCoreId(w) <= MaximumCoreId(r)
  }

  /** The range (w, w1) lies in the range (r, r1) and has the same flags; the 32-bit sums cannot wrap,
      as both parts have 24 bits. */
  predicate RangeWithin(w: Word, w1: Word, r: Word, r1: Word) {
    && AddressSize(r1) < RANGE_SIZE_MAX
    && RangeFlag(w) == RangeFlag(r) && RangeFlag(w1) == RangeFlag(r1)
    && AddressSize(r) <= AddressSize(w) <= AddressSize(r) + AddressSize(r1)
    && AddressSize(w) + AddressSize(w1) <= AddressSize(r) + AddressSize(r1)
  }

  /** Every debug flag that is set is also set in the restriction. */
  predicate DebugFlagsWithin(w: Word, r: Word) { r & w == w }

  predicate InterruptAllowedBy(id: Word, r: Word) {
    || (InterruptId0(r) == EMPTY_INTERRUPT && InterruptId1(r) == EMPTY_INTERRUPT)
    || InterruptId0(r) == id || InterruptId1(r) == id
  }

  // ---------- One capability against a list ----------

  /** The first restriction of a kind; the others of that kind play no part. */
  function FirstOf(id: nat, kac: seq<Word>): Option<Word> {
    if kac == [] then None else if CapabilityId(kac[0]) == id then Some(kac[0]) else FirstOf(id, kac[1..])
  }

  predicate InterruptAllowed(id: Word, kac: seq<Word>) {
    exists i :: 0 <= i < |kac| && CapabilityId(kac[i]) == INTERRUPT_PAIR && InterruptAllowedBy(id, kac[i])
  }

  /** Whether a capability of a kind whose first restriction decides is within that. */
  predicate WithinFirst(id: nat, w: Word, r: Word) {
    if id == KERNEL_FLAGS then FlagsWithin(w, r)
    else if id == HANDLE_TABLE then HandleTableSize(w) <= HandleTableSize(r)
    else if id == DEBUG_FLAGS then DebugFlagsWithin(w, r)
    else r == w
  }

  /** Whether a capability that is not a range is within the list. */
  predicate WordAllowed(w: Word, kac: seq<Word>) {
    var id := CapabilityId(w);
    if id == SYSCALL_MASK then
      exists i :: 0 <= i < |kac| && CapabilityId(kac[i]) == id
                  && SyscallIndex(kac[i]) == SyscallIndex(w) && SyscallBits(kac[i]) == SyscallBits(w)
    else if id == MAP_PAGE then
      exists i :: 0 <= i < |kac| && CapabilityId(kac[i]) == id && kac[i] == w
    else if id == INTERRUPT_PAIR then
      InterruptAllowed(InterruptId0(w), kac) && InterruptAllowed(InterruptId1(w), kac)
    else
      var first := FirstOf(id, kac);
      first.Some? && WithinFirst(id, w, first.value)
  }

  predicate IsPlainKind(id: nat) {
    id in {KERNEL_FLAGS, SYSCALL_MASK, MAP_PAGE, INTERRUPT_PAIR, APPLICATION_TYPE, KERNEL_VERSION, HANDLE_TABLE,
           DEBUG_FLAGS}
  }

  /** Ranges come as pairs of words, which the scan takes two at a time; an unpaired one ends it. */
  predicate RangeListed(w: Word, w1: Word, kac: seq<Word>) {
    if kac == [] then false
    else if CapabilityId(kac[0]) != MAP_RANGE then RangeListed(w, w1, kac[1..])
    else
      && |kac| >= 2 && CapabilityId(kac[1]) == MAP_RANGE
      && (RangeWithin(w, w1, kac[0], kac[1]) || RangeListed(w, w1, kac[2..]))
  }

  predicate RangeAllowed(w: Word, w1: Word, kac: seq<Word>) {
    CapabilityId(w1) == MAP_RANGE && AddressSize(w1) < RANGE_SIZE_MAX && RangeListed(w, w1, kac)
  }

  // ---------- Lists ----------

  datatype Result = Success | InvalidCapability(id: nat) | UnknownCapability

  /** The first capability of `aci` that is not within `acid`, if any. */
  function Validate(acid: seq<Word>, aci: seq<Word>): Result {
    if aci == [] then Success
    else
      var id := CapabilityId(aci[0]);
      if id == MAP_RANGE then
        if |aci| >= 2 && RangeAllowed(aci[0], aci[1], acid) then Validate(acid, aci[2..])
        else InvalidCapability(MAP_RANGE)
      else if IsPlainKind(id) then
        if WordAllowed(aci[0], acid) then Validate(acid, aci[1..]) else InvalidCapability(id)
      else if id == EMPTY then Validate(acid, aci[1..])
      else UnknownCapability
  }

  /** `aci` may be used under `acid`. */
  predicate Accepted(aci: seq<Word>, acid: seq<Word>) { Validate(acid, aci) == Success }

  // ---------- Acceptance is transitive ----------

  /** If the list allows the interrupt that marks an unused slot, it allows all interrupts. A list with
      no pair that has exactly one unused slot satisfies this. */
  ghost predicate UnusedSlotsAreHarmless(kac: seq<Word>) {
    InterruptAllowed(EMPTY_INTERRUPT, kac) ==> forall id: Word | id <= 0x3FF :: InterruptAllowed(id, kac)
  }

  predicate NoHalfEmptyPair(kac: seq<Word>) {
    forall i | 0 <= i < |kac| && CapabilityId(kac[i]) == INTERRUPT_PAIR ::
      InterruptId0(kac[i]) == EMPTY_INTERRUPT <==> InterruptId1(kac[i]) == EMPTY_INTERRUPT
  }

  lemma FullPairsAreHarmless(kac: seq<Word>)
    requires NoHalfEmptyPair(kac)
    ensures UnusedSlotsAreHarmless(kac)
  {
    if InterruptAllowed(EMPTY_INTERRUPT, kac) {
      var i :| 0 <= i < |kac| && CapabilityId(kac[i]) == INTERRUPT_PAIR && InterruptAllowedBy(EMPTY_INTERRUPT, kac[i]);
      forall id: Word ensures InterruptAllowed(id, kac) { assert InterruptAllowedBy(id, kac[i]); }
    }
  }

  /** In an accepted list every word that is not part of a range is itself within the restriction. */
  lemma {:induction false} AcceptedWords(aci: seq<Word>, acid: seq<Word>, i: nat)
    requires Accepted(aci, acid) && i < |aci|
    requires IsPlainKind(CapabilityId(aci[i]))
    ensures WordAllowed(aci[i], acid)
  {
    hide WordAllowed, RangeListed;
    if CapabilityId(aci[0]) == MAP_RANGE {
      if i >= 2 { AcceptedWords(aci[2..], acid, i - 2); }
    } else if i > 0 {
      AcceptedWords(aci[1..], acid, i - 1);
    }
  }

  lemma {:induction false} FirstIsListed(id: nat, kac: seq<Word>) returns (i: nat)
    requires FirstOf(id, kac).Some?
    ensures i < |kac| && FirstOf(id, kac) == Some(kac[i]) && CapabilityId(kac[i]) == id
  {
    if CapabilityId(kac[0]) == id { i := 0; }
    else {
      var j := FirstIsListed(id, kac[1..]);
      i := j + 1;
    }
  }

  lemma InterruptTransitive(id: Word, b: seq<Word>, c: seq<Word>)
    requires id <= 0x3FF && InterruptAllowed(id, b) && Accepted(b, c) && UnusedSlotsAreHarmless(c)
    ensures InterruptAllowed(id, c)
  {
    hide Validate, RangeListed;
    var i :| 0 <= i < |b| && CapabilityId(b[i]) == INTERRUPT_PAIR && InterruptAllowedBy(id, b[i]);
    AcceptedWords(b, c, i);
  }

  lemma FlagsTransitive(w: Word, r: Word, s: Word)
    requires FlagsWithin(w, r) && FlagsWithin(r, s)
    ensures FlagsWithin(w, s)
  {
    hide MaximumThreadPriority, MinimumThreadPriority, MaximumCoreId, MinimumCoreId;
  }

  lemma DebugFlagsTransitive(w: Word, r: Word, s: Word)
    requires DebugFlagsWithin(w, r) && DebugFlagsWithin(r, s)
    ensures DebugFlagsWithin(w, s)
  {
  }

  /** Kinds whose first entry in the list decides. */
  lemma FirstMatchTransitive(w: Word, b: seq<Word>, c: seq<Word>)
    requires IsPlainKind(CapabilityId(w)) && CapabilityId(w) !in {SYSCALL_MASK, MAP_PAGE, INTERRUPT_PAIR}
    requires WordAllowed(w, b) && Accepted(b, c)
    ensures WordAllowed(w, c)
  {
    hide Validate, CapabilityId, HandleTableSize, FlagsWithin, FirstOf, DebugFlagsWithin;
    var i := FirstIsListed(CapabilityId(w), b);
    AcceptedWords(b, c, i);
    var r, s := b[i], FirstOf(CapabilityId(w), c).value;
    if CapabilityId(w) == KERNEL_FLAGS { FlagsTransitive(w, r, s); }
    if CapabilityId(w) == DEBUG_FLAGS { DebugFlagsTransitive(w, r, s); }
  }

  lemma WordTransitive(w: Word, b: seq<Word>, c: seq<Word>)
    requires IsPlainKind(CapabilityId(w)) && WordAllowed(w, b) && Accepted(b, c) && UnusedSlotsAreHarmless(c)
    ensures WordAllowed(w, c)
  {
    hide Validate, CapabilityId, UnusedSlotsAreHarmless, InterruptAllowed, FirstOf, SyscallIndex, SyscallBits;
    var id := CapabilityId(w);
    if id == SYSCALL_MASK {
      var i :| 0 <= i < |b| && CapabilityId(b[i]) == id
               && SyscallIndex(b[i]) == SyscallIndex(w) && SyscallBits(b[i]) == SyscallBits(w);
      AcceptedWords(b, c, i);
    } else if id == MAP_PAGE {
      var i :| 0 <= i < |b| && CapabilityId(b[i]) == id && b[i] == w;
      AcceptedWords(b, c, i);
    } else if id == INTERRUPT_PAIR {
      InterruptTransitive(InterruptId0(w), b, c);
      InterruptTransitive(InterruptId1(w), b, c);
    } else {
      FirstMatchTransitive(w, b, c);
    }
  }

  lemma WithinTransitive(w: Word, w1: Word, r: Word, r1: Word, s: Word, s1: Word)
    requires RangeWithin(w, w1, r, r1) && RangeWithin(r, r1, s, s1)
    ensures RangeWithin(w, w1, s, s1)
  {
    hide AddressSize, RangeFlag;
  }

  lemma {:induction false} RangeShrinks(w: Word, w1: Word, r: Word, r1: Word, c: seq<Word>)
    requires RangeWithin(w, w1, r, r1) && RangeListed(r, r1, c)
    ensures RangeListed(w, w1, c)
  {
    hide CapabilityId, RangeWithin;
    if CapabilityId(c[0]) != MAP_RANGE {
      RangeShrinks(w, w1, r, r1, c[1..]);
    } else if RangeWithin(r, r1, c[0], c[1]) {
      WithinTransitive(w, w1, r, r1, c[0], c[1]);
    } else {
      RangeShrinks(w, w1, r, r1, c[2..]);
    }
  }

  lemma {:induction false} RangeTransitive(w: Word, w1: Word, b: seq<Word>, c: seq<Word>)
    requires RangeListed(w, w1, b) && Accepted(b, c)
    ensures RangeListed(w, w1, c)
  {
    hide CapabilityId, WordAllowed, RangeWithin;
    if CapabilityId(b[0]) != MAP_RANGE {
      RangeTransitive(w, w1, b[1..], c);
    } else if RangeWithin(w, w1, b[0], b[1]) {
      RangeShrinks(w, w1, b[0], b[1], c);
    } else {
      RangeTransitive(w, w1, b[2..], c);
    }
  }

  /** What is accepted under an accepted list is accepted under what accepts that list. */
  lemma {:induction false} AcceptanceIsTransitive(a: seq<Word>, b: seq<Word>, c: seq<Word>)
    requires Accepted(a, b) && Accepted(b, c) && UnusedSlotsAreHarmless(c)
    ensures Accepted(a, c)
  {
    hide CapabilityId, WordAllowed, RangeListed, UnusedSlotsAreHarmless;
    if a != [] {
      var id := CapabilityId(a[0]);
      if id == MAP_RANGE {
        RangeTransitive(a[0], a[1], b, c);
        AcceptanceIsTransitive(a[2..], b, c);
      } else {
        if IsPlainKind(id) { WordTransitive(a[0], b, c); }
        AcceptanceIsTransitive(a[1..], b, c);
      }
    }
  }

  // ---------- ... exactly under that condition ----------

  function InterruptPair(id0: Word, id1: Word): Word { 0x7FF | (id0 << 12) | (id1 << 22) }

  lemma InterruptPairFields(id0: Word, id1: Word)
    requires id0 <= 0x3FF && id1 <= 0x3FF
    ensures var w := InterruptPair(id0, id1);
            CapabilityId(w) == INTERRUPT_PAIR && InterruptId0(w) == id0 && InterruptId1(w) == id1
  {
    var w := InterruptPair(id0, id1);
    assert InterruptId0(w) == id0 && InterruptId1(w) == id1;
    assert w & 0xFFF == 0x7FF;
    ElevenOnes(w);
  }

  lemma ElevenOnes(w: Word)
    requires w & 0xFFF == 0x7FF
    ensures CapabilityId(w) == 11
  {
    hide CapabilityId;
    Nibbles(w);
    FourOnes(w);
    FourOnes(w >> 4);
    ThreeOnes(w >> 8);
  }

  lemma Nibbles(w: Word)
    requires w & 0xFFF == 0x7FF
    ensures w & 0xF == 0xF && (w >> 4) & 0xF == 0xF && (w >> 8) & 0xF == 7 && (w >> 4) >> 4 == w >> 8
  {
  }

  lemma ThreeOnes(w: Word)
    requires w & 0xF == 7
    ensures CapabilityId(w) == 3
  {
    assert CapabilityId(w) == 1 + CapabilityId(w >> 1);
    assert CapabilityId(w >> 1) == 1 + CapabilityId(w >> 1 >> 1);
    assert CapabilityId(w >> 1 >> 1) == 1 + CapabilityId(w >> 1 >> 1 >> 1);
    assert (w >> 1 >> 1 >> 1) & 1 == 0;
  }

  lemma FourOnes(w: Word)
    requires w & 0xF == 0xF
    ensures CapabilityId(w) == 4 + CapabilityId(w >> 4)
  {
    assert CapabilityId(w) == 1 + CapabilityId(w >> 1);
    assert CapabilityId(w >> 1) == 1 + CapabilityId(w >> 1 >> 1);
    assert CapabilityId(w >> 1 >> 1) == 1 + CapabilityId(w >> 1 >> 1 >> 1);
    assert CapabilityId(w >> 1 >> 1 >> 1) == 1 + CapabilityId(w >> 1 >> 1 >> 1 >> 1);
    assert w >> 1 >> 1 >> 1 >> 1 == w >> 4;
  }

  /** A list of one interrupt pair. */
  lemma OnePairAccepted(id0: Word, id1: Word, c: seq<Word>)
    requires id0 <= 0x3FF && id1 <= 0x3FF
    ensures Accepted([InterruptPair(id0, id1)], c) <==> InterruptAllowed(id0, c) && InterruptAllowed(id1, c)
  {
    hide CapabilityId, InterruptPair, InterruptId0, InterruptId1;
    InterruptPairFields(id0, id1);
    var w := InterruptPair(id0, id1);
    assert [w][1..] == [];
    assert Validate(c, []) == Success;
  }

  /** A restricting list is respected transitively exactly when its unused interrupt slots are harmless. */
  lemma TransitiveIffHarmless(c: seq<Word>)
    ensures (forall a, b :: Accepted(a, b) && Accepted(b, c) ==> Accepted(a, c)) <==> UnusedSlotsAreHarmless(c)
  {
    hide CapabilityId, Validate, InterruptPair;
    if UnusedSlotsAreHarmless(c) {
      forall a, b | Accepted(a, b) && Accepted(b, c) ensures Accepted(a, c) { AcceptanceIsTransitive(a, b, c); }
    } else {
      var id: Word :| id <= 0x3FF && !InterruptAllowed(id, c);
      var a, b := [InterruptPair(id, id)], [InterruptPair(EMPTY_INTERRUPT, EMPTY_INTERRUPT)];
      OnePairAccepted(EMPTY_INTERRUPT, EMPTY_INTERRUPT, c);
      OnePairAccepted(id, id, c);
      OnePairAccepted(id, id, b);
      InterruptPairFields(EMPTY_INTERRUPT, EMPTY_INTERRUPT);
      assert InterruptAllowedBy(id, b[0]);
      assert InterruptAllowed(id, b);
      assert Accepted(a, b) && Accepted(b, c) && !Accepted(a, c);
    }
  }

  /** A half-empty pair for interrupt 5 lets interrupt 6 through in two steps, though not in one. */
  lemma HalfEmptyPairLeaks()
    ensures var c := [InterruptPair(5, EMPTY_INTERRUPT)];
            var b := [InterruptPair(EMPTY_INTERRUPT, EMPTY_INTERRUPT)];
            var a := [InterruptPair(6, 6)];
            Accepted(a, b) && Accepted(b, c) && !Accepted(a, c)
  {
    hide CapabilityId, Validate, InterruptPair, InterruptId0, InterruptId1;
    var c, b := [InterruptPair(5, EMPTY_INTERRUPT)], [InterruptPair(EMPTY_INTERRUPT, EMPTY_INTERRUPT)];
    InterruptPairFields(5, EMPTY_INTERRUPT);
    InterruptPairFields(EMPTY_INTERRUPT, EMPTY_INTERRUPT);
    assert InterruptAllowedBy(EMPTY_INTERRUPT, c[0]) && !InterruptAllowedBy(6, c[0]) && InterruptAllowedBy(6, b[0]);
    OnePairAccepted(EMPTY_INTERRUPT, EMPTY_INTERRUPT, c);
    OnePairAccepted(6, 6, c);
    OnePairAccepted(6, 6, b);
  }

  // ---------- Appending restrictions ----------

  lemma {:induction false} FirstOfAppend(id: nat, c: seq<Word>, d: seq<Word>)
    requires FirstOf(id, c).Some?
    ensures FirstOf(id, c + d) == FirstOf(id, c)
  {
    if CapabilityId(c[0]) != id {
      FirstOfAppend(id, c[1..], d);
      assert (c + d)[1..] == c[1..] + d;
    }
  }

  lemma {:induction false} RangeListedAppend(w: Word, w1: Word, c: seq<Word>, d: seq<Word>)
    requires RangeListed(w, w1, c)
    ensures RangeListed(w, w1, c + d)
  {
    hide RangeWithin;
    if CapabilityId(c[0]) != MAP_RANGE {
      RangeListedAppend(w, w1, c[1..], d);
      assert (c + d)[1..] == c[1..] + d;
    } else if !RangeWithin(w, w1, c[0], c[1]) {
      RangeListedAppend(w, w1, c[2..], d);
      assert (c + d)[2..] == c[2..] + d;
    }
  }

  lemma WordAllowedAppend(w: Word, c: seq<Word>, d: seq<Word>)
    requires WordAllowed(w, c)
    ensures WordAllowed(w, c + d)
  {
    hide CapabilityId, SyscallIndex, SyscallBits, HandleTableSize, FlagsWithin, InterruptAllowedBy, FirstOf,
         DebugFlagsWithin;
    assert forall i | 0 <= i < |c| :: (c + d)[i] == c[i];
    var id := CapabilityId(w);
    if FirstOf(id, c).Some? { FirstOfAppend(id, c, d); }
  }

  /** Acceptance is never revoked by appending entries to the restricting list. */
  lemma {:induction false} AppendKeepsAcceptance(a: seq<Word>, c: seq<Word>, d: seq<Word>)
    requires Accepted(a, c)
    ensures Accepted(a, c + d)
  {
    hide CapabilityId, WordAllowed, RangeListed;
    if a != [] {
      var id := CapabilityId(a[0]);
      if id == MAP_RANGE {
        RangeListedAppend(a[0], a[1], c, d);
        AppendKeepsAcceptance(a[2..], c, d);
      } else {
        if IsPlainKind(id) { WordAllowedAppend(a[0], c, d); }
        AppendKeepsAcceptance(a[1..], c, d);
      }
    }
  }
}
