/** Where the fields of a capability word are, as words that are put together from them; and what the checks on them
    mean. */
module CapabilityFields {
  import opened KernelCapabilities
  import opened ProgramFlags

  // ---------- Words from fields ----------

  function FlagsWord(highest: Word, lowest: Word, firstCore: Word, lastCore: Word): Word {
    0x7 | (highest << 4) | (lowest << 10) | (firstCore << 16) | (lastCore << 24)
  }

  function SyscallWord(mask: Word, index: Word): Word { 0xF | (mask << 5) | (index << 29) }

  function RangeWord(pages: Word, flag: Word): Word { 0x3F | (pages << 7) | (flag << 31) }

  function HandleWord(size: Word): Word { 0x7FFF | (size << 16) }

  lemma TwoOnes(w: Word)
    requires w & 7 == 3
    ensures CapabilityId(w) == 2
  {
    assert CapabilityId(w) == 1 + CapabilityId(w >> 1);
    assert CapabilityId(w >> 1) == 1 + CapabilityId(w >> 1 >> 1);
    assert (w >> 1 >> 1) & 1 == 0;
  }

  lemma NoOnes(w: Word)
    requires w & 1 == 0
    ensures CapabilityId(w) == 0
  {
  }

  lemma FourthOnes(w: Word)
    requires w & 0x1F == 0xF
    ensures CapabilityId(w) == 4
  {
    hide CapabilityId;
    assert w & 0xF == 0xF && (w >> 4) & 1 == 0;
    FourOnes(w);
    NoOnes(w >> 4);
  }

  lemma SixOnes(w: Word)
    requires w & 0x7F == 0x3F
    ensures CapabilityId(w) == 6
  {
    hide CapabilityId;
    assert w & 0xF == 0xF && (w >> 4) & 7 == 3;
    FourOnes(w);
    TwoOnes(w >> 4);
  }

  predicate EndsInThreeOnes(w: Word) { w & 0xF == 7 }

  predicate EndsInFifteenOnes(w: Word) { w & 0xFFFF == 0x7FFF }

  lemma FifteenNibbles(w: Word)
    requires EndsInFifteenOnes(w)
    ensures var w1 := Sixteenth(w); var w2 := Sixteenth(w1);
            EndsInOnes(w) && EndsInOnes(w1) && EndsInOnes(w2) && EndsInThreeOnes(Sixteenth(w2))
  {
  }

  lemma OnlyThreeOnes(w: Word)
    requires EndsInThreeOnes(w)
    ensures CapabilityId(w) == 3
  {
    hide CapabilityId;
    ThreeOnes(w);
  }

  lemma FifteenOnes(w: Word)
    requires EndsInFifteenOnes(w)
    ensures CapabilityId(w) == 15
  {
    hide CapabilityId, EndsInFifteenOnes, EndsInOnes, EndsInThreeOnes, Sixteenth;
    FifteenNibbles(w);
    var w1 := Sixteenth(w);
    var w2 := Sixteenth(w1);
    NibbleOfOnes(w);
    NibbleOfOnes(w1);
    NibbleOfOnes(w2);
    OnlyThreeOnes(Sixteenth(w2));
  }

  /** Priorities of six bits and cores of eight, behind three ones and a zero. */
  lemma FlagsRoundTrip(highest: Word, lowest: Word, firstCore: Word, lastCore: Word)
    requires highest <= 0x3F && lowest <= 0x3F && firstCore <= 0xFF && lastCore <= 0xFF
    ensures var w := FlagsWord(highest, lowest, firstCore, lastCore);
            && CapabilityId(w) == KERNEL_FLAGS
            && MaximumThreadPriority(w) == highest as nat && MinimumThreadPriority(w) == lowest as nat
            && MinimumCoreId(w) == firstCore as nat && MaximumCoreId(w) == lastCore as nat
  {
    FlagsBits(highest, lowest, firstCore, lastCore);
    hide CapabilityId, FlagsWord;
    ThreeOnes(FlagsWord(highest, lowest, firstCore, lastCore));
  }

  lemma FlagsBits(highest: Word, lowest: Word, firstCore: Word, lastCore: Word)
    requires highest <= 0x3F && lowest <= 0x3F && firstCore <= 0xFF && lastCore <= 0xFF
    ensures var w := FlagsWord(highest, lowest, firstCore, lastCore);
            && w & 0xF == 7 && (w >> 4) & 0x3F == highest && (w >> 10) & 0x3F == lowest
            && (w >> 16) & 0xFF == firstCore && (w >> 24) & 0xFF == lastCore
  {
  }

  /** A mask of 24 system calls and the number of the group. */
  lemma SyscallRoundTrip(mask: Word, index: Word)
    requires mask <= 0xFF_FFFF && index <= 7
    ensures var w := SyscallWord(mask, index);
            CapabilityId(w) == SYSCALL_MASK && SyscallBits(w) == mask && SyscallIndex(w) == index
  {
    var w := SyscallWord(mask, index);
    assert w & 0x1F == 0xF;
    FourthOnes(w);
    hide CapabilityId;
  }

  /** 24 bits of address or size and a flag. */
  lemma RangeRoundTrip(pages: Word, flag: Word)
    requires pages <= 0xFF_FFFF && flag <= 1
    ensures var w := RangeWord(pages, flag);
            && CapabilityId(w) == MAP_RANGE && AddressSize(w) == (pages as bv24) as nat
            && (RangeFlag(w) <==> flag == 1)
  {
    RangeBits(pages, flag);
    hide CapabilityId, RangeWord;
    SixOnes(RangeWord(pages, flag));
  }

  lemma RangeBits(pages: Word, flag: Word)
    requires pages <= 0xFF_FFFF && flag <= 1
    ensures var w := RangeWord(pages, flag);
            w & 0x7F == 0x3F && (w >> 7) & 0xFF_FFFF == pages && ((w >> 31) & 1 == 1 <==> flag == 1)
  {
  }

  lemma HandleRoundTrip(size: Word)
    requires size <= 0x3FF
    ensures var w := HandleWord(size); CapabilityId(w) == HANDLE_TABLE && HandleTableSize(w) == size as nat
  {
    HandleBits(size);
    hide CapabilityId, HandleWord, EndsInFifteenOnes;
    FifteenOnes(HandleWord(size));
  }

  lemma HandleBits(size: Word)
    requires size <= 0x3FF
    ensures EndsInFifteenOnes(HandleWord(size)) && (HandleWord(size) >> 16) & 0x3FF == size
  {
  }

  // ---------- What the checks mean ----------

  predicate Among(x: int, low: int, high: int) { low <= x <= high }

  /** Kernel flags are within others when they are ranges, and all their priorities and cores are among theirs. */
  lemma FlagsWithinIsInclusion(w: Word, r: Word)
    ensures FlagsWithin(w, r) <==>
            && MinimumThreadPriority(w) <= MaximumThreadPriority(w) && MinimumCoreId(w) <= MaximumCoreId(w)
            && (forall p :: Among(p, MinimumThreadPriority(w), MaximumThreadPriority(w)) ==>
                  Among(p, MinimumThreadPriority(r), MaximumThreadPriority(r)))
            && (forall c :: Among(c, MinimumCoreId(w), MaximumCoreId(w)) ==>
                  Among(c, MinimumCoreId(r), MaximumCoreId(r)))
  {
    EndsDecide(MinimumThreadPriority(w), MaximumThreadPriority(w), MinimumThreadPriority(r), MaximumThreadPriority(r));
    EndsDecide(MinimumCoreId(w), MaximumCoreId(w), MinimumCoreId(r), MaximumCoreId(r));
    hide MinimumThreadPriority, MaximumThreadPriority, MinimumCoreId, MaximumCoreId, Among;
  }

  lemma EndsDecide(a: int, b: int, low: int, high: int)
    ensures a <= b ==> ((forall x :: Among(x, a, b) ==> Among(x, low, high)) <==> low <= a && b <= high)
  {
    if a <= b { assert Among(a, a, b) && Among(b, a, b); }
  }

  function Behind(w: Word, w1: Word): nat { AddressSize(w) + AddressSize(w1) }

  /** A range is within another when the flags are the same and it is among the pages of the other. */
  lemma RangeWithinIsInclusion(w: Word, w1: Word, r: Word, r1: Word)
    ensures RangeWithin(w, w1, r, r1) <==>
            && AddressSize(r1) < 0x10_0000 && RangeFlag(w) == RangeFlag(r) && RangeFlag(w1) == RangeFlag(r1)
            && forall x :: Among(x, AddressSize(w), Behind(w, w1)) ==> Among(x, AddressSize(r), Behind(r, r1))
  {
    EndsDecide(AddressSize(w), Behind(w, w1), AddressSize(r), Behind(r, r1));
    hide AddressSize, RangeFlag, Among;
  }

  /** Debug flags are within others when each bit that is set is set there. */
  lemma DebugFlagsWithinIsInclusion(w: Word, r: Word)
    ensures DebugFlagsWithin(w, r) <==> w & !r == 0
  {
  }

  /** An interrupt is allowed by a pair that names it, and every interrupt by a pair with two unused slots. */
  lemma PairAllows(id: Word, id0: Word, id1: Word)
    requires id0 <= 0x3FF && id1 <= 0x3FF
    ensures InterruptAllowed(id, [InterruptPair(id0, id1)]) <==> id == id0 || id == id1 || id0 == id1 == 0x3FF
  {
    hide CapabilityId, InterruptPair, InterruptId0, InterruptId1;
    InterruptPairFields(id0, id1);
    var kac := [InterruptPair(id0, id1)];
    assert InterruptAllowedBy(id, kac[0]) ==> InterruptAllowed(id, kac);
  }

  // ---------- Lists ----------

  /** A range is listed among the pairs of a list of ranges exactly when it is within one of them. */
  lemma {:induction false} RangeListedInPairs(w: Word, w1: Word, pairs: seq<(Word, Word)>)
    requires forall k | 0 <= k < |pairs| ::
               CapabilityId(pairs[k].0) == MAP_RANGE && CapabilityId(pairs[k].1) == MAP_RANGE
    ensures RangeListed(w, w1, Flat(pairs))
        <==> exists k :: 0 <= k < |pairs| && RangeWithin(w, w1, pairs[k].0, pairs[k].1)
  {
    hide RangeWithin, CapabilityId;
    if pairs != [] {
      var rest := pairs[1..];
      assert Flat(pairs)[2..] == Flat(rest);
      RangeListedInPairs(w, w1, rest);
      assert forall k | 0 <= k < |rest| :: rest[k] == pairs[k + 1];
      if k :| 0 <= k < |pairs| && RangeWithin(w, w1, pairs[k].0, pairs[k].1) {
        if k > 0 { assert RangeWithin(w, w1, rest[k - 1].0, rest[k - 1].1); }
      }
    }
  }

  function Flat(pairs: seq<(Word, Word)>): seq<Word> {
    if pairs == [] then [] else [pairs[0].0, pairs[0].1] + Flat(pairs[1..])
  }

  /** A list is judged piece by piece. */
  lemma {:induction false} ValidateSplits(acid: seq<Word>, a: seq<Word>, b: seq<Word>)
    requires Accepted(a, acid)
    ensures Validate(acid, a + b) == Validate(acid, b)
  {
    hide CapabilityId, WordAllowed, RangeAllowed;
    if a == [] {
      assert a + b == b;
    } else if CapabilityId(a[0]) == MAP_RANGE {
      assert (a + b)[2..] == a[2..] + b;
      ValidateSplits(acid, a[2..], b);
    } else {
      assert (a + b)[1..] == a[1..] + b;
      ValidateSplits(acid, a[1..], b);
    }
  }

  /** Without ranges, a list is accepted when each of its words is empty or of a known kind and allowed. */
  lemma {:induction false} PlainListIsAccepted(acid: seq<Word>, aci: seq<Word>)
    requires forall w | w in aci :: CapabilityId(w) != 6
    ensures Accepted(aci, acid) <==>
            forall w | w in aci ::
              || CapabilityId(w) == 32
              || (CapabilityId(w) in {3, 4, 7, 11, 13, 14, 15, 16} && WordAllowed(w, acid))
  {
    hide CapabilityId, WordAllowed;
    if aci != [] {
      var front, rest := aci[0], aci[1..];
      assert aci == [front] + rest;
      PlainListIsAccepted(acid, rest);
      assert forall w | w in aci :: w == front || w in rest;
      assert front in aci && CapabilityId(front) != MAP_RANGE;
    }
  }
}
