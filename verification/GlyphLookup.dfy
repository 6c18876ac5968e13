/** Searches in font tables: from code points to glyphs, and by glyph in the kerning and coverage tables. */
module GlyphLookup {
  import opened MachineInts
  import opened FontMemory

  // ---------- cmap format 4: segments of code points ----------

  function SegmentCount(mem: Memory, cmap: int): nat { UShort(mem, cmap + 6) / 2 }

  /** The four arrays of a table, one word per segment each. */
  function EndCode(mem: Memory, cmap: int, i: nat): nat
    requires i < SegmentCount(mem, cmap)
  {
    UShort(mem, cmap + 14 + 2 * i)
  }

  function StartCode(mem: Memory, cmap: int, i: nat): nat
    requires i < SegmentCount(mem, cmap)
  {
    UShort(mem, cmap + 14 + SegmentCount(mem, cmap) * 2 + 2 + 2 * i)
  }

  function IdDelta(mem: Memory, cmap: int, i: nat): int
    requires i < SegmentCount(mem, cmap)
  {
    Short(mem, cmap + 14 + SegmentCount(mem, cmap) * 4 + 2 + 2 * i)
  }

  /** Where a segment's range offset is; the offset counts from there. */
  function RangeOffsetAt(mem: Memory, cmap: int, i: nat): int
    requires i < SegmentCount(mem, cmap)
  {
    cmap + 14 + SegmentCount(mem, cmap) * 6 + 2 + 2 * i
  }

  /** The header and ordering rules of the OpenType specification, 'cmap' Format 4. */
  ghost predicate Format4Rules(mem: Memory, cmap: int) {
    var n, e := SegmentCount(mem, cmap), UShort(mem, cmap + 10);
    && Pow2(e) <= n < 2 * Pow2(e)
    && UShort(mem, cmap + 8) / 2 == Pow2(e)
    && UShort(mem, cmap + 12) / 2 == n - Pow2(e)
    && (forall i, j | 0 <= i < j < n :: EndCode(mem, cmap, i) < EndCode(mem, cmap, j))
    && EndCode(mem, cmap, n - 1) == 0xFFFF
  }

  /** The first segment from `i` on that ends at or after the code point: a plain scan. */
  function FirstSegment(mem: Memory, cmap: int, cp: int, i: nat): (k: nat)
    requires i < SegmentCount(mem, cmap) && EndCode(mem, cmap, SegmentCount(mem, cmap) - 1) >= cp
    ensures i <= k < SegmentCount(mem, cmap) && EndCode(mem, cmap, k) >= cp
    ensures forall j | i <= j < k :: EndCode(mem, cmap, j) < cp
    decreases SegmentCount(mem, cmap) - i
  {
    if EndCode(mem, cmap, i) >= cp then i else FirstSegment(mem, cmap, cp, i + 1)
  }

  /** The glyph of a code point in a segment. */
  function SegmentGlyph(mem: Memory, cmap: int, cp: int, k: nat): int
    requires k < SegmentCount(mem, cmap)
  {
    var start, offset := StartCode(mem, cmap, k), UShort(mem, RangeOffsetAt(mem, cmap, k));
    if cp < start then 0
    else if offset == 0 then (cp + IdDelta(mem, cmap, k)) % 0x1_0000
    else UShort(mem, offset + (cp - start) * 2 + RangeOffsetAt(mem, cmap, k))
  }

  /** What comparing with the end of segment s says about where the first one is. */
  lemma Compare(mem: Memory, cmap: int, cp: int, s: nat)
    requires Format4Rules(mem, cmap) && cp <= 0xFFFF && s < SegmentCount(mem, cmap)
    ensures if cp > EndCode(mem, cmap, s) then s < FirstSegment(mem, cmap, cp, 0)
            else FirstSegment(mem, cmap, cp, 0) <= s
    ensures cp == EndCode(mem, cmap, s) ==> FirstSegment(mem, cmap, cp, 0) == s
  {
    hide UShort;
    var k := FirstSegment(mem, cmap, cp, 0);
    if k < s { assert EndCode(mem, cmap, k) < EndCode(mem, cmap, s); }
  }

  lemma HeaderFields(mem: Memory, cmap: int)
    requires Format4Rules(mem, cmap)
    ensures var size := Pow2(UShort(mem, cmap + 10));
            && UShort(mem, cmap + 8) / 2 == size
            && size + UShort(mem, cmap + 12) / 2 == SegmentCount(mem, cmap) < 2 * size
  {
    hide UShort;
  }

  /** The biased search. The segments it looks at, all of them in the table, halve a power of two. */
  method SearchSegments(mem: Memory, cmap: int, cp: int) returns (item: nat)
    requires Format4Rules(mem, cmap) && cp <= 0xFFFF
    ensures item == FirstSegment(mem, cmap, cp, 0)
  {
    hide *;
    var searchRange: nat := UShort(mem, cmap + 8) / 2;
    var entrySelector: nat := UShort(mem, cmap + 10);
    var rangeShift: nat := UShort(mem, cmap + 12) / 2;
    HeaderFields(mem, cmap);
    FirstWindow(mem, cmap, cp);
    var search: int := 0;
    if cp >= EndCode(mem, cmap, search + rangeShift) {
      search := search + rangeShift;
    }
    search := search - 1;
    while entrySelector > 0
      invariant Window(mem, cmap, cp, search, searchRange, entrySelector)
    {
      NarrowWindow(mem, cmap, cp, search, searchRange, entrySelector);
      searchRange := searchRange / 2;
      var end := EndCode(mem, cmap, search + searchRange);
      if cp > end {
        search := search + searchRange;
      }
      entrySelector := entrySelector - 1;
    }
    LastWindow(mem, cmap, cp, search, searchRange);
    search := search + 1;
    item := search;
  }

  /** The segment looked for is one of the `searchRange` after `search`. */
  ghost predicate Window(mem: Memory, cmap: int, cp: int, search: int, searchRange: nat, entrySelector: nat)
    requires Format4Rules(mem, cmap) && cp <= 0xFFFF
  {
    && searchRange == Pow2(entrySelector)
    && -1 <= search < FirstSegment(mem, cmap, cp, 0) <= search + searchRange < SegmentCount(mem, cmap)
  }

  lemma FirstWindow(mem: Memory, cmap: int, cp: int)
    requires Format4Rules(mem, cmap) && cp <= 0xFFFF
    ensures var size, shift, e := UShort(mem, cmap + 8) / 2, UShort(mem, cmap + 12) / 2, UShort(mem, cmap + 10);
            && shift < SegmentCount(mem, cmap)
            && (cp >= EndCode(mem, cmap, shift) ==> Window(mem, cmap, cp, shift - 1, size, e))
            && (cp < EndCode(mem, cmap, shift) ==> Window(mem, cmap, cp, -1, size, e))
  {
    hide Format4Rules, FirstSegment, UShort, SegmentCount, EndCode;
    HeaderFields(mem, cmap);
    Compare(mem, cmap, cp, UShort(mem, cmap + 12) / 2);
  }

  lemma NarrowWindow(mem: Memory, cmap: int, cp: int, search: int, searchRange: nat, e: nat)
    requires Format4Rules(mem, cmap) && cp <= 0xFFFF && e > 0 && Window(mem, cmap, cp, search, searchRange, e)
    ensures var half := searchRange / 2;
            && 0 <= search + half < SegmentCount(mem, cmap)
            && (cp > EndCode(mem, cmap, search + half) ==> Window(mem, cmap, cp, search + half, half, e - 1))
            && (cp <= EndCode(mem, cmap, search + half) ==> Window(mem, cmap, cp, search, half, e - 1))
  {
    hide Format4Rules, FirstSegment, UShort, SegmentCount, EndCode;
    assert Pow2(e) == 2 * Pow2(e - 1);
    Compare(mem, cmap, cp, search + searchRange / 2);
  }

  lemma LastWindow(mem: Memory, cmap: int, cp: int, search: int, searchRange: nat)
    requires Format4Rules(mem, cmap) && cp <= 0xFFFF && Window(mem, cmap, cp, search, searchRange, 0)
    ensures search + 1 == FirstSegment(mem, cmap, cp, 0)
  {
  }

  // ---------- cmap formats 12 and 13: groups of code points ----------

  function GroupCount(mem: Memory, cmap: int): nat { ULong(mem, cmap + 12) }

  function GroupStart(mem: Memory, cmap: int, i: nat): nat { ULong(mem, cmap + 16 + i * 12) }

  function GroupEnd(mem: Memory, cmap: int, i: nat): nat { ULong(mem, cmap + 16 + i * 12 + 4) }

  function GroupGlyph(mem: Memory, cmap: int, i: nat): nat { ULong(mem, cmap + 16 + i * 12 + 8) }

  /** The groups are not empty, disjoint and in order, and offsets into the table fit a signed word. */
  ghost predicate GroupsSorted(mem: Memory, cmap: int) {
    && 16 + 12 * GroupCount(mem, cmap) < 0x8000_0000
    && (forall i | 0 <= i < GroupCount(mem, cmap) :: GroupStart(mem, cmap, i) <= GroupEnd(mem, cmap, i))
    && forall i, j | 0 <= i < j < GroupCount(mem, cmap) :: GroupEnd(mem, cmap, i) < GroupStart(mem, cmap, j)
  }

  predicate InGroup(mem: Memory, cmap: int, cp: nat, i: nat) {
    GroupStart(mem, cmap, i) <= cp <= GroupEnd(mem, cmap, i)
  }

  /** The groups from `i` on, one after another. */
  function ScanGroups(mem: Memory, cmap: int, cp: nat, everyGlyph: bool, i: nat): int
    requires i <= GroupCount(mem, cmap)
    decreases GroupCount(mem, cmap) - i
  {
    if i == GroupCount(mem, cmap) then 0
    else if InGroup(mem, cmap, cp, i) then GroupValue(mem, cmap, cp, everyGlyph, i)
    else ScanGroups(mem, cmap, cp, everyGlyph, i + 1)
  }

  /** Format 12 counts glyphs along the group, format 13 has one for all of it. */
  function GroupValue(mem: Memory, cmap: int, cp: nat, everyGlyph: bool, i: nat): int {
    var glyph := GroupGlyph(mem, cmap, i);
    ToInt32(if everyGlyph then glyph + cp - GroupStart(mem, cmap, i) else glyph)
  }

  lemma {:induction false} ScanFinds(mem: Memory, cmap: int, cp: nat, everyGlyph: bool, i: nat, k: nat)
    requires i <= k < GroupCount(mem, cmap) && InGroup(mem, cmap, cp, k)
    requires forall j | i <= j < k :: !InGroup(mem, cmap, cp, j)
    ensures ScanGroups(mem, cmap, cp, everyGlyph, i) == GroupValue(mem, cmap, cp, everyGlyph, k)
    decreases k - i
  {
    hide InGroup, GroupValue;
    if i < k { ScanFinds(mem, cmap, cp, everyGlyph, i + 1, k); }
  }

  lemma {:induction false} ScanMisses(mem: Memory, cmap: int, cp: nat, everyGlyph: bool, i: nat)
    requires i <= GroupCount(mem, cmap)
    requires forall j | i <= j < GroupCount(mem, cmap) :: !InGroup(mem, cmap, cp, j)
    ensures ScanGroups(mem, cmap, cp, everyGlyph, i) == 0
    decreases GroupCount(mem, cmap) - i
  {
    hide InGroup, GroupValue;
    if i < GroupCount(mem, cmap) { ScanMisses(mem, cmap, cp, everyGlyph, i + 1); }
  }

  method SearchGroups(mem: Memory, cmap: int, cp: nat, everyGlyph: bool) returns (glyph: int)
    requires GroupsSorted(mem, cmap)
    ensures glyph == ScanGroups(mem, cmap, cp, everyGlyph, 0)
  {
    hide GroupCount, GroupStart, GroupEnd, GroupGlyph, ScanGroups;
    var low, high := 0, GroupCount(mem, cmap);
    while low < high
      invariant 0 <= low <= high <= GroupCount(mem, cmap)
      invariant forall j | 0 <= j < low :: GroupEnd(mem, cmap, j) < cp
      invariant forall j | high <= j < GroupCount(mem, cmap) :: cp < GroupStart(mem, cmap, j)
    {
      var mid := low + (high - low) / 2;
      if cp < GroupStart(mem, cmap, mid) {
        high := mid;
      } else if cp > GroupEnd(mem, cmap, mid) {
        low := mid + 1;
      } else {
        ScanFinds(mem, cmap, cp, everyGlyph, 0, mid);
        return GroupValue(mem, cmap, cp, everyGlyph, mid);
      }
    }
    ScanMisses(mem, cmap, cp, everyGlyph, 0);
    return 0;
  }

  // ---------- All formats ----------

  /** What a character map says about a code point, by plain scans. Formats 6, 12 and 13 take it as an unsigned
      number. */
  function GlyphOf(mem: Memory, cmap: int, cp: int): int
    requires TableRules(mem, cmap)
  {
    var format := UShort(mem, cmap);
    if format == 0 then
      if cp < UShort(mem, cmap + 2) - 6 then mem(cmap + 6 + cp) else 0
    else if format == 6 then
      var first := UShort(mem, cmap + 6);
      if first <= WrapU32(cp) < first + UShort(mem, cmap + 8) then UShort(mem, cmap + 10 + (cp - first) * 2) else 0
    else if format == 4 then
      if cp > 0xFFFF then 0 else SegmentGlyph(mem, cmap, cp, FirstSegment(mem, cmap, cp, 0))
    else if format == 12 || format == 13 then ScanGroups(mem, cmap, WrapU32(cp), format == 12, 0)
    else 0
  }

  ghost predicate TableRules(mem: Memory, cmap: int) {
    var format := UShort(mem, cmap);
    && (format == 4 ==> Format4Rules(mem, cmap))
    && (format == 12 || format == 13 ==> GroupsSorted(mem, cmap))
  }

  method FindGlyphIndex(mem: Memory, cmap: int, cp: int) returns (glyph: int)
    requires TableRules(mem, cmap)
    ensures glyph == GlyphOf(mem, cmap, cp)
  {
    hide UShort, StartCode, IdDelta, RangeOffsetAt, Format4Rules, GroupsSorted, FirstSegment, ScanGroups, SegmentCount;
    var format := UShort(mem, cmap);
    if format == 0 {
      var bytes: int := UShort(mem, cmap + 2);
      if cp < bytes - 6 { return mem(cmap + 6 + cp); }
      return 0;
    } else if format == 6 {
      var first := UShort(mem, cmap + 6);
      var count := UShort(mem, cmap + 8);
      if WrapU32(cp) >= first && WrapU32(cp) < first + count { return UShort(mem, cmap + 10 + (cp - first) * 2); }
      return 0;
    } else if format == 2 {
      return 0;
    } else if format == 4 {
      if cp > 0xFFFF { return 0; }
      var item := SearchSegments(mem, cmap, cp);
      var start := StartCode(mem, cmap, item);
      if cp < start { return 0; }
      var offset := UShort(mem, RangeOffsetAt(mem, cmap, item));
      if offset == 0 { return (cp + IdDelta(mem, cmap, item)) % 0x1_0000; }
      return UShort(mem, offset + (cp - start) * 2 + RangeOffsetAt(mem, cmap, item));
    } else if format == 12 || format == 13 {
      glyph := SearchGroups(mem, cmap, WrapU32(cp), format == 12);
    } else {
      return 0;
    }
  }

  /** In a format 4 table no segment but the one found can hold the code point, so that a code point that
      is in some segment gets its glyph from it. */
  lemma SegmentIsTheOne(mem: Memory, cmap: int, cp: nat, k: nat)
    requires UShort(mem, cmap) == 4 && Format4Rules(mem, cmap) && k < SegmentCount(mem, cmap)
    requires StartCode(mem, cmap, k) <= cp <= EndCode(mem, cmap, k)
    requires forall j | 0 <= j < k :: EndCode(mem, cmap, j) < StartCode(mem, cmap, k)
    ensures GlyphOf(mem, cmap, cp) == SegmentGlyph(mem, cmap, cp, k)
  {
    hide UShort, SegmentGlyph;
    assert cp <= 0xFFFF by {
      if k < SegmentCount(mem, cmap) - 1 {
        assert EndCode(mem, cmap, k) < EndCode(mem, cmap, SegmentCount(mem, cmap) - 1);
      }
    }
    assert FirstSegment(mem, cmap, cp, 0) == k;
  }

  // ---------- Kerning ----------

  function PairCount(mem: Memory, kern: int): nat { UShort(mem, kern + 10) }

  function PairKey(mem: Memory, kern: int, i: nat): nat { ULong(mem, kern + 18 + i * 6) }

  function PairValue(mem: Memory, kern: int, i: nat): int { Short(mem, kern + 22 + i * 6) }

  predicate HasPairs(mem: Memory, kern: int) {
    kern != 0 && UShort(mem, kern + 2) >= 1 && UShort(mem, kern + 8) == 1
  }

  ghost predicate PairsSorted(mem: Memory, kern: int) {
    forall i, j | 0 <= i < j < PairCount(mem, kern) :: PairKey(mem, kern, i) < PairKey(mem, kern, j)
  }

  /** The kerning of a pair, scanning from `i` on. */
  function ScanPairs(mem: Memory, kern: int, key: nat, i: nat): int
    requires i <= PairCount(mem, kern)
    decreases PairCount(mem, kern) - i
  {
    if i == PairCount(mem, kern) then 0
    else if PairKey(mem, kern, i) == key then PairValue(mem, kern, i)
    else ScanPairs(mem, kern, key, i + 1)
  }

  lemma {:induction false} ScanPairsAt(mem: Memory, kern: int, key: nat, i: nat, k: nat)
    requires i <= k <= PairCount(mem, kern)
    requires forall j | i <= j < k :: PairKey(mem, kern, j) != key
    ensures ScanPairs(mem, kern, key, i) == ScanPairs(mem, kern, key, k)
    decreases k - i
  {
    hide PairKey, PairValue;
    if i < k { ScanPairsAt(mem, kern, key, i + 1, k); }
  }

  type Half = x: int | 0 <= x < 0x1_0000

  /** Bitwise or. */
  function Or(a: nat, b: nat): nat {
    if a == 0 && b == 0 then 0 else 2 * Or(a / 2, b / 2) + if a % 2 == 1 || b % 2 == 1 then 1 else 0
  }

  /** `glyph1 << 16 | glyph2` as an unsigned word: an overlong second number spills into the first. */
  function Needle(glyph1: int, glyph2: int): nat {
    Or(glyph1 % 0x1_0000, WrapU32(glyph2) / 0x1_0000) * 0x1_0000 + glyph2 % 0x1_0000
  }

  lemma {:induction false} OrZero(a: nat)
    ensures Or(a, 0) == a
  {
    if a > 0 { OrZero(a / 2); }
  }

  /** Glyph numbers of sixteen bits make up the key that the kerning table uses. */
  lemma NeedleIsKey(glyph1: Half, glyph2: Half)
    ensures Needle(glyph1, glyph2) == glyph1 * 0x1_0000 + glyph2
  {
    hide Or;
    OrZero(glyph1);
    assert WrapU32(glyph2) / 0x1_0000 == 0 && glyph1 % 0x1_0000 == glyph1 && glyph2 % 0x1_0000 == glyph2;
  }

  /** `stbtt__GetGlyphKernInfoAdvance`. */
  method KernAdvance(mem: Memory, kern: int, glyph1: int, glyph2: int) returns (advance: int)
    requires PairsSorted(mem, kern)
    ensures advance == if HasPairs(mem, kern) then ScanPairs(mem, kern, Needle(glyph1, glyph2), 0) else 0
  {
    hide UShort, PairCount, PairKey, PairValue, ScanPairs, Needle;
    if kern == 0 { return 0; }
    if UShort(mem, kern + 2) < 1 { return 0; }
    if UShort(mem, kern + 8) != 1 { return 0; }
    var l, r := 0, PairCount(mem, kern) - 1;
    var needle := Needle(glyph1, glyph2);
    while l <= r
      invariant 0 <= l <= r + 1 <= PairCount(mem, kern)
      invariant forall j | 0 <= j < l :: PairKey(mem, kern, j) < needle
      invariant forall j | r < j < PairCount(mem, kern) :: PairKey(mem, kern, j) > needle
    {
      var m := (l + r) / 2;
      var straw := PairKey(mem, kern, m);
      if needle < straw {
        r := m - 1;
      } else if needle > straw {
        l := m + 1;
      } else {
        ScanPairsAt(mem, kern, needle, 0, m);
        PairFound(mem, kern, needle, m);
        return PairValue(mem, kern, m);
      }
    }
    ScanPairsAt(mem, kern, needle, 0, PairCount(mem, kern));
    PairMissing(mem, kern, needle);
    return 0;
  }

  lemma PairFound(mem: Memory, kern: int, key: nat, k: nat)
    requires k < PairCount(mem, kern) && PairKey(mem, kern, k) == key
    ensures ScanPairs(mem, kern, key, k) == PairValue(mem, kern, k)
  {
  }

  lemma PairMissing(mem: Memory, kern: int, key: nat)
    ensures ScanPairs(mem, kern, key, PairCount(mem, kern)) == 0
  {
  }

  // ---------- Coverage tables ----------

  function CoverageCount(mem: Memory, table: int): nat { UShort(mem, table + 2) }

  /** Format 1 lists glyphs, format 2 ranges of them. */
  function RangeStart(mem: Memory, table: int, i: nat): nat {
    if UShort(mem, table) == 1 then UShort(mem, table + 4 + 2 * i) else UShort(mem, table + 4 + 6 * i)
  }

  function RangeEnd(mem: Memory, table: int, i: nat): nat {
    if UShort(mem, table) == 1 then UShort(mem, table + 4 + 2 * i) else UShort(mem, table + 4 + 6 * i + 2)
  }

  /** The coverage index of a glyph in the i-th entry. */
  function IndexIn(mem: Memory, table: int, glyph: int, i: nat): int {
    if UShort(mem, table) == 1 then i
    else UShort(mem, table + 4 + 6 * i + 4) + glyph - RangeStart(mem, table, i)
  }

  predicate Covers(mem: Memory, table: int, glyph: int, i: nat) {
    RangeStart(mem, table, i) <= glyph <= RangeEnd(mem, table, i)
  }

  ghost predicate CoverageSorted(mem: Memory, table: int) {
    && (forall i | 0 <= i < CoverageCount(mem, table) :: RangeStart(mem, table, i) <= RangeEnd(mem, table, i))
    && forall i, j | 0 <= i < j < CoverageCount(mem, table) :: RangeEnd(mem, table, i) < RangeStart(mem, table, j)
  }

  /** The coverage index by scanning the entries from `i` on; -1 when there is none. */
  function ScanCoverage(mem: Memory, table: int, glyph: int, i: nat): int
    requires i <= CoverageCount(mem, table)
    decreases CoverageCount(mem, table) - i
  {
    if i == CoverageCount(mem, table) then -1
    else if Covers(mem, table, glyph, i) then IndexIn(mem, table, glyph, i)
    else ScanCoverage(mem, table, glyph, i + 1)
  }

  lemma {:induction false} ScanCoverageAt(mem: Memory, table: int, glyph: int, i: nat, k: nat)
    requires i <= k <= CoverageCount(mem, table)
    requires forall j | i <= j < k :: !Covers(mem, table, glyph, j)
    ensures ScanCoverage(mem, table, glyph, i) == ScanCoverage(mem, table, glyph, k)
    decreases k - i
  {
    hide Covers, IndexIn;
    if i < k { ScanCoverageAt(mem, table, glyph, i + 1, k); }
  }

  lemma CoverageFound(mem: Memory, table: int, glyph: int, k: nat)
    requires k < CoverageCount(mem, table) && Covers(mem, table, glyph, k)
    ensures ScanCoverage(mem, table, glyph, k) == IndexIn(mem, table, glyph, k)
  {
  }

  lemma CoverageMissing(mem: Memory, table: int, glyph: int)
    ensures ScanCoverage(mem, table, glyph, CoverageCount(mem, table)) == -1
  {
  }

  method GetCoverageIndex(mem: Memory, table: int, glyph: int) returns (index: int)
    requires CoverageSorted(mem, table)
    ensures index == if UShort(mem, table) == 1 || UShort(mem, table) == 2 then ScanCoverage(mem, table, glyph, 0)
                     else -1
  {
    hide UShort, CoverageCount, RangeStart, RangeEnd, ScanCoverage;
    var format := UShort(mem, table);
    if format == 1 {
      var l, r := 0, CoverageCount(mem, table) - 1;
      while l <= r
        invariant Bracketed(mem, table, glyph, l, r)
      {
        var m := (l + r) / 2;
        var straw := UShort(mem, table + 4 + 2 * m);
        GlyphEntry(mem, table, m);
        if glyph < straw {
          r := m - 1;
        } else if glyph > straw {
          l := m + 1;
        } else {
          ScanCoverageAt(mem, table, glyph, 0, m);
          CoverageFound(mem, table, glyph, m);
          return m;
        }
      }
      ScanCoverageAt(mem, table, glyph, 0, CoverageCount(mem, table));
      CoverageMissing(mem, table, glyph);
    } else if format == 2 {
      var l, r := 0, CoverageCount(mem, table) - 1;
      while l <= r
        invariant Bracketed(mem, table, glyph, l, r)
      {
        var m := (l + r) / 2;
        var start, end := UShort(mem, table + 4 + 6 * m), UShort(mem, table + 4 + 6 * m + 2);
        RangeEntry(mem, table, m);
        if glyph < start {
          r := m - 1;
        } else if glyph > end {
          l := m + 1;
        } else {
          ScanCoverageAt(mem, table, glyph, 0, m);
          CoverageFound(mem, table, glyph, m);
          return UShort(mem, table + 4 + 6 * m + 4) + glyph - start;
        }
      }
      ScanCoverageAt(mem, table, glyph, 0, CoverageCount(mem, table));
      CoverageMissing(mem, table, glyph);
    }
    return -1;
  }

  /** Only the entries from l to r can still cover the glyph. */
  ghost predicate Bracketed(mem: Memory, table: int, glyph: int, l: int, r: int) {
    && 0 <= l <= r + 1 <= CoverageCount(mem, table)
    && (forall j | 0 <= j < l :: RangeEnd(mem, table, j) < glyph)
    && forall j | r < j < CoverageCount(mem, table) :: glyph < RangeStart(mem, table, j)
  }

  lemma GlyphEntry(mem: Memory, table: int, m: nat)
    requires UShort(mem, table) == 1
    ensures RangeStart(mem, table, m) == RangeEnd(mem, table, m) == UShort(mem, table + 4 + 2 * m)
  {
  }

  lemma RangeEntry(mem: Memory, table: int, m: nat)
    requires UShort(mem, table) == 2
    ensures RangeStart(mem, table, m) == UShort(mem, table + 4 + 6 * m)
    ensures RangeEnd(mem, table, m) == UShort(mem, table + 4 + 6 * m + 2)
  {
  }
}
