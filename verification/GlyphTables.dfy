/** Tables written out as the OpenType specification lays them out, and what the lookups read from them. */
module GlyphTables {
  import opened MachineInts
  import opened FontMemory
  import opened GlyphLookup

  // ---------- 'cmap' format 4 ----------

  /** A run of code points: to glyphs by an offset, or through a table of glyphs at some address. */
  datatype Run = ByDelta(first: nat, last: nat, delta: int) | ByTable(first: nat, last: nat, delta: int, at: int)

  predicate Word(mem: Memory, p: int, v: int) { mem(p) * 0x100 + mem(p + 1) == v % 0x1_0000 }

  /** Arrays of all last code points, a word of padding, and arrays of all first code points, deltas and offsets. */
  ghost predicate RunAt(mem: Memory, cmap: int, n: nat, i: nat, r: Run) {
    && Word(mem, cmap + 14 + 2 * i, r.last)
    && Word(mem, cmap + 16 + 2 * n + 2 * i, r.first)
    && Word(mem, cmap + 16 + 4 * n + 2 * i, r.delta)
    && var here := cmap + 16 + 6 * n + 2 * i;
       if r.ByDelta? then Word(mem, here, 0) else 0 < r.at - here < 0x1_0000 && Word(mem, here, r.at - here)
  }

  /** The runs, ascending and without overlap, up to 0xFFFF; the header gives their number in three forms. */
  ghost predicate IsFormat4(mem: Memory, cmap: int, runs: seq<Run>, e: nat) {
    var n := |runs|;
    && n < 0x8000 && Pow2(e) <= n < 2 * Pow2(e)
    && Word(mem, cmap, 4) && Word(mem, cmap + 6, 2 * n) && Word(mem, cmap + 8, 2 * Pow2(e))
    && Word(mem, cmap + 10, e) && Word(mem, cmap + 12, 2 * (n - Pow2(e)))
    && runs[n - 1].last == 0xFFFF
    && (forall i | 0 <= i < n :: runs[i].first <= runs[i].last <= 0xFFFF && RunAt(mem, cmap, n, i, runs[i]))
    && (forall i, j | 0 <= i < j < n :: runs[i].last < runs[j].first)
  }

  lemma WordIsUShort(mem: Memory, p: int, v: nat)
    requires Word(mem, p, v) && v < 0x1_0000
    ensures UShort(mem, p) == v
  {
  }

  lemma PowerFits(e: nat)
    ensures e < Pow2(e)
  {
    if e > 0 { PowerFits(e - 1); }
  }

  lemma FieldsRead(mem: Memory, cmap: int, runs: seq<Run>, e: nat)
    requires IsFormat4(mem, cmap, runs, e)
    ensures UShort(mem, cmap) == 4 && SegmentCount(mem, cmap) == |runs|
    ensures UShort(mem, cmap + 8) == 2 * Pow2(e) && UShort(mem, cmap + 10) == e
    ensures UShort(mem, cmap + 12) == 2 * (|runs| - Pow2(e))
  {
    hide RunAt, UShort;
    PowerFits(e);
    hide Pow2;
    WordIsUShort(mem, cmap, 4);
    WordIsUShort(mem, cmap + 6, 2 * |runs|);
    WordIsUShort(mem, cmap + 8, 2 * Pow2(e));
    WordIsUShort(mem, cmap + 10, e);
    WordIsUShort(mem, cmap + 12, 2 * (|runs| - Pow2(e)));
  }

  lemma RunRead(mem: Memory, cmap: int, runs: seq<Run>, e: nat, i: nat)
    requires IsFormat4(mem, cmap, runs, e) && i < |runs|
    ensures SegmentCount(mem, cmap) == |runs|
    ensures EndCode(mem, cmap, i) == runs[i].last && StartCode(mem, cmap, i) == runs[i].first
    ensures (IdDelta(mem, cmap, i) - runs[i].delta) % 0x1_0000 == 0
    ensures var here := RangeOffsetAt(mem, cmap, i);
            UShort(mem, here) == if runs[i].ByDelta? then 0 else runs[i].at - here
    ensures RangeOffsetAt(mem, cmap, i) == cmap + 16 + 6 * |runs| + 2 * i
  {
    FieldsRead(mem, cmap, runs, e);
    var r, n := runs[i], |runs|;
    assert RunAt(mem, cmap, n, i, r);
    hide SegmentCount, IsFormat4, UShort;
    WordIsUShort(mem, cmap + 14 + 2 * i, r.last);
    WordIsUShort(mem, cmap + 16 + 2 * n + 2 * i, r.first);
    DeltaRead(mem, cmap + 16 + 4 * n + 2 * i, r.delta);
    var here := cmap + 16 + 6 * n + 2 * i;
    WordIsUShort(mem, here, if r.ByDelta? then 0 else r.at - here);
  }

  lemma DeltaRead(mem: Memory, p: int, delta: int)
    requires Word(mem, p, delta)
    ensures (Short(mem, p) - delta) % 0x1_0000 == 0
  {
  }

  lemma TableIsFormat4(mem: Memory, cmap: int, runs: seq<Run>, e: nat)
    requires IsFormat4(mem, cmap, runs, e)
    ensures TableRules(mem, cmap)
  {
    hide UShort, Word, RunAt, Pow2, SegmentCount;
    FieldsRead(mem, cmap, runs, e);
    forall i | 0 <= i < |runs| ensures EndCode(mem, cmap, i) == runs[i].last { RunRead(mem, cmap, runs, e, i); }
    hide EndCode;
  }

  /** A code point in a run has its glyph looked up in that segment. */
  lemma RunIsTheOne(mem: Memory, cmap: int, runs: seq<Run>, e: nat, k: nat, cp: int)
    requires IsFormat4(mem, cmap, runs, e) && k < |runs| && runs[k].first <= cp <= runs[k].last
    ensures TableRules(mem, cmap) && k < SegmentCount(mem, cmap)
    ensures GlyphOf(mem, cmap, cp) == SegmentGlyph(mem, cmap, cp, k)
  {
    TableIsFormat4(mem, cmap, runs, e);
    FieldsRead(mem, cmap, runs, e);
    RunRead(mem, cmap, runs, e, k);
    forall j | 0 <= j < k ensures EndCode(mem, cmap, j) < StartCode(mem, cmap, k) {
      RunRead(mem, cmap, runs, e, j);
      assert runs[j].last < runs[k].first;
    }
    hide UShort, IsFormat4, SegmentCount, EndCode, StartCode, IdDelta, RangeOffsetAt, GlyphOf, RunAt, SegmentGlyph;
    SegmentIsTheOne(mem, cmap, cp, k);
  }

  /** By offset: the glyph is the code point plus the offset, in sixteen bits. */
  lemma DeltaRunIsFound(mem: Memory, cmap: int, runs: seq<Run>, e: nat, k: nat, cp: int)
    requires IsFormat4(mem, cmap, runs, e) && k < |runs| && runs[k].first <= cp <= runs[k].last && runs[k].ByDelta?
    ensures TableRules(mem, cmap) && GlyphOf(mem, cmap, cp) == (cp + runs[k].delta) % 0x1_0000
  {
    RunIsTheOne(mem, cmap, runs, e, k, cp);
    RunRead(mem, cmap, runs, e, k);
    hide UShort, IsFormat4, SegmentCount, EndCode, StartCode, IdDelta, RangeOffsetAt, GlyphOf, RunAt;
    SumCongruent(cp, IdDelta(mem, cmap, k), runs[k].delta);
  }

  /** By table: the glyph is the word at the place of the code point in the table. */
  lemma TableRunIsFound(mem: Memory, cmap: int, runs: seq<Run>, e: nat, k: nat, cp: int, glyph: nat)
    requires IsFormat4(mem, cmap, runs, e) && k < |runs| && runs[k].first <= cp <= runs[k].last && runs[k].ByTable?
    requires glyph < 0x1_0000 && Word(mem, runs[k].at + 2 * (cp - runs[k].first), glyph)
    ensures TableRules(mem, cmap) && GlyphOf(mem, cmap, cp) == glyph
  {
    RunIsTheOne(mem, cmap, runs, e, k, cp);
    RunRead(mem, cmap, runs, e, k);
    assert RunAt(mem, cmap, |runs|, k, runs[k]);
    var here := cmap + 16 + 6 * |runs| + 2 * k;
    assert runs[k].at - here > 0;
    hide UShort, IsFormat4, SegmentCount, EndCode, StartCode, IdDelta, RangeOffsetAt, GlyphOf, RunAt, Word;
    WordIsUShort(mem, runs[k].at + 2 * (cp - runs[k].first), glyph);
    assert (runs[k].at - here) + (cp - runs[k].first) * 2 + here == runs[k].at + 2 * (cp - runs[k].first);
  }

  /** All other code points get glyph 0. */
  lemma NoRunIsFound(mem: Memory, cmap: int, runs: seq<Run>, e: nat, cp: int)
    requires IsFormat4(mem, cmap, runs, e)
    requires forall k | 0 <= k < |runs| :: !(runs[k].first <= cp <= runs[k].last)
    ensures TableRules(mem, cmap) && GlyphOf(mem, cmap, cp) == 0
  {
    TableIsFormat4(mem, cmap, runs, e);
    FieldsRead(mem, cmap, runs, e);
    if cp <= 0xFFFF {
      RunRead(mem, cmap, runs, e, |runs| - 1);
      var k := FirstSegment(mem, cmap, cp, 0);
      RunRead(mem, cmap, runs, e, k);
      assert cp < runs[k].first;
    }
    hide UShort, IsFormat4, SegmentCount, EndCode, StartCode, IdDelta, RangeOffsetAt, RunAt, FirstSegment;
  }

  lemma SumCongruent(a: int, b: int, c: int)
    requires (b - c) % 0x1_0000 == 0
    ensures (a + b) % 0x1_0000 == (a + c) % 0x1_0000
  {
  }

  // ---------- The other formats ----------

  /** Format 0: one byte per code point. */
  lemma ByteTableIsRead(mem: Memory, cmap: int, glyphs: seq<byte>, cp: int)
    requires Word(mem, cmap, 0) && |glyphs| + 6 < 0x1_0000 && Word(mem, cmap + 2, |glyphs| + 6)
    requires forall i | 0 <= i < |glyphs| :: mem(cmap + 6 + i) == glyphs[i]
    ensures TableRules(mem, cmap)
    ensures cp >= 0 ==> GlyphOf(mem, cmap, cp) == if cp < |glyphs| then glyphs[cp] else 0
  {
    WordIsUShort(mem, cmap, 0);
    WordIsUShort(mem, cmap + 2, |glyphs| + 6);
    hide UShort, Word;
  }

  /** Format 6: one word per code point from the first one on. */
  lemma TrimmedTableIsRead(mem: Memory, cmap: int, first: nat, glyphs: seq<nat>, cp: int)
    requires Word(mem, cmap, 6) && first < 0x1_0000 && |glyphs| < 0x1_0000
    requires Word(mem, cmap + 6, first) && Word(mem, cmap + 8, |glyphs|)
    requires forall i | 0 <= i < |glyphs| :: glyphs[i] < 0x1_0000 && Word(mem, cmap + 10 + 2 * i, glyphs[i])
    requires -0x8000_0000 <= cp < 0x8000_0000
    ensures TableRules(mem, cmap)
    ensures GlyphOf(mem, cmap, cp) == if first <= cp < first + |glyphs| then glyphs[cp - first] else 0
  {
    WordIsUShort(mem, cmap, 6);
    WordIsUShort(mem, cmap + 6, first);
    WordIsUShort(mem, cmap + 8, |glyphs|);
    SignedIsWrapped(cp);
    if first <= cp < first + |glyphs| { WordIsUShort(mem, cmap + 10 + 2 * (cp - first), glyphs[cp - first]); }
    hide UShort, Word, WrapU32;
  }

  lemma SignedIsWrapped(cp: int)
    requires -0x8000_0000 <= cp < 0x8000_0000
    ensures WrapU32(cp) == if cp >= 0 then cp else cp + 0x1_0000_0000
  {
  }

  /** A group of code points and its first, or only, glyph. */
  datatype Group = Group(first: nat, last: nat, glyph: nat)

  predicate LongWord(mem: Memory, p: int, v: nat) { v < 0x1_0000_0000 && ULong(mem, p) == v }

  ghost predicate GroupsAt(mem: Memory, cmap: int, groups: seq<Group>) {
    && |groups| < 0x800_0000 && LongWord(mem, cmap + 12, |groups|)
    && (forall i | 0 <= i < |groups| ::
          && LongWord(mem, cmap + 16 + 12 * i, groups[i].first) && LongWord(mem, cmap + 20 + 12 * i, groups[i].last)
          && LongWord(mem, cmap + 24 + 12 * i, groups[i].glyph) && groups[i].first <= groups[i].last)
    && (forall i, j | 0 <= i < j < |groups| :: groups[i].last < groups[j].first)
  }

  lemma GroupRead(mem: Memory, cmap: int, groups: seq<Group>, i: nat)
    requires GroupsAt(mem, cmap, groups) && i < |groups|
    ensures GroupCount(mem, cmap) == |groups| && GroupStart(mem, cmap, i) == groups[i].first
    ensures GroupEnd(mem, cmap, i) == groups[i].last && GroupGlyph(mem, cmap, i) == groups[i].glyph
  {
    hide ULong;
    assert LongWord(mem, cmap + 16 + 12 * i, groups[i].first);
    assert cmap + 16 + i * 12 == cmap + 16 + 12 * i && cmap + 16 + i * 12 + 4 == cmap + 20 + 12 * i
        && cmap + 16 + i * 12 + 8 == cmap + 24 + 12 * i;
  }

  lemma GroupsAreSorted(mem: Memory, cmap: int, groups: seq<Group>)
    requires GroupsAt(mem, cmap, groups)
    ensures GroupsSorted(mem, cmap) && GroupCount(mem, cmap) == |groups|
  {
    hide ULong, GroupStart, GroupEnd;
    assert GroupCount(mem, cmap) == |groups|;
    forall i | 0 <= i < |groups|
      ensures GroupStart(mem, cmap, i) == groups[i].first && GroupEnd(mem, cmap, i) == groups[i].last
    {
      GroupRead(mem, cmap, groups, i);
    }
    hide GroupCount;
  }

  /** Formats 12 and 13: along the group, or one glyph for all of it. */
  lemma GroupIsFound(mem: Memory, cmap: int, groups: seq<Group>, k: nat, cp: nat)
    requires GroupsAt(mem, cmap, groups) && k < |groups| && groups[k].first <= cp <= groups[k].last
    requires cp < 0x8000_0000 && groups[k].glyph + (cp - groups[k].first) < 0x8000_0000
    ensures GroupsSorted(mem, cmap)
    ensures UShort(mem, cmap) == 12 ==> GlyphOf(mem, cmap, cp) == groups[k].glyph + (cp - groups[k].first)
    ensures UShort(mem, cmap) == 13 ==> GlyphOf(mem, cmap, cp) == groups[k].glyph
  {
    GroupsAreSorted(mem, cmap, groups);
    GroupRead(mem, cmap, groups, k);
    SignedIsWrapped(cp);
    forall j | 0 <= j < k ensures !InGroup(mem, cmap, cp, j) {
      GroupRead(mem, cmap, groups, j);
      assert groups[j].last < groups[k].first;
    }
    hide GroupsAt, GroupStart, GroupEnd, GroupGlyph, GroupCount, ULong, GroupsSorted, ScanGroups, WrapU32;
    ScanFinds(mem, cmap, cp, true, 0, k);
    ScanFinds(mem, cmap, cp, false, 0, k);
  }

  lemma NoGroupIsFound(mem: Memory, cmap: int, groups: seq<Group>, cp: nat)
    requires GroupsAt(mem, cmap, groups) && cp < 0x8000_0000
    requires forall k | 0 <= k < |groups| :: !(groups[k].first <= cp <= groups[k].last)
    ensures GroupsSorted(mem, cmap)
    ensures UShort(mem, cmap) == 12 || UShort(mem, cmap) == 13 ==> GlyphOf(mem, cmap, cp) == 0
  {
    GroupsAreSorted(mem, cmap, groups);
    SignedIsWrapped(cp);
    forall j | 0 <= j < |groups| ensures !InGroup(mem, cmap, cp, j) {
      GroupRead(mem, cmap, groups, j);
    }
    hide GroupsAt, GroupStart, GroupEnd, GroupGlyph, GroupCount, ULong, GroupsSorted, ScanGroups, WrapU32, InGroup;
    ScanMisses(mem, cmap, cp, true, 0);
    ScanMisses(mem, cmap, cp, false, 0);
  }

  // ---------- Kerning ----------

  /** A kerning pair: two glyphs and a distance. */
  datatype Pair = Pair(left: nat, right: nat, value: int)

  ghost predicate PairsAt(mem: Memory, kern: int, pairs: seq<Pair>) {
    && |pairs| < 0x1_0000 && Word(mem, kern + 10, |pairs|)
    && (forall i | 0 <= i < |pairs| ::
          && pairs[i].left < 0x1_0000 && pairs[i].right < 0x1_0000 && -0x8000 <= pairs[i].value < 0x8000
          && Word(mem, kern + 18 + 6 * i, pairs[i].left) && Word(mem, kern + 20 + 6 * i, pairs[i].right)
          && Word(mem, kern + 22 + 6 * i, pairs[i].value))
    && (forall i, j | 0 <= i < j < |pairs| ::
          pairs[i].left < pairs[j].left || (pairs[i].left == pairs[j].left && pairs[i].right < pairs[j].right))
  }

  lemma PairRead(mem: Memory, kern: int, pairs: seq<Pair>, i: nat)
    requires PairsAt(mem, kern, pairs) && i < |pairs|
    ensures PairKey(mem, kern, i) == pairs[i].left * 0x1_0000 + pairs[i].right
    ensures PairValue(mem, kern, i) == pairs[i].value
  {
    var p := pairs[i];
    assert Word(mem, kern + 18 + 6 * i, p.left) && Word(mem, kern + 20 + 6 * i, p.right)
        && Word(mem, kern + 22 + 6 * i, p.value);
    hide UShort, PairsAt;
    WordIsUShort(mem, kern + 18 + 6 * i, p.left);
    WordIsUShort(mem, kern + 20 + 6 * i, p.right);
    ValueRead(mem, kern + 22 + 6 * i, p.value);
    assert kern + 18 + i * 6 == kern + 18 + 6 * i && kern + 22 + i * 6 == kern + 22 + 6 * i;
  }

  lemma ValueRead(mem: Memory, p: int, v: int)
    requires Word(mem, p, v) && -0x8000 <= v < 0x8000
    ensures Short(mem, p) == v
  {
  }

  lemma CountRead(mem: Memory, kern: int, pairs: seq<Pair>)
    requires PairsAt(mem, kern, pairs)
    ensures PairCount(mem, kern) == |pairs|
  {
    WordIsUShort(mem, kern + 10, |pairs|);
  }

  lemma PairsRead(mem: Memory, kern: int, pairs: seq<Pair>)
    requires PairsAt(mem, kern, pairs)
    ensures PairCount(mem, kern) == |pairs| && PairsSorted(mem, kern)
    ensures forall i | 0 <= i < |pairs| :: PairKey(mem, kern, i) == pairs[i].left * 0x1_0000 + pairs[i].right
  {
    CountRead(mem, kern, pairs);
    forall i | 0 <= i < |pairs|
      ensures PairKey(mem, kern, i) == pairs[i].left * 0x1_0000 + pairs[i].right
    {
      PairRead(mem, kern, pairs, i);
    }
    hide UShort, Word, PairKey, PairCount;
  }

  /** Every pair of the table is found. */
  lemma PairIsFound(mem: Memory, kern: int, pairs: seq<Pair>, k: nat)
    requires PairsAt(mem, kern, pairs) && k < |pairs|
    ensures PairsSorted(mem, kern)
    ensures ScanPairs(mem, kern, Needle(pairs[k].left, pairs[k].right), 0) == pairs[k].value
  {
    PairsRead(mem, kern, pairs);
    PairRead(mem, kern, pairs, k);
    NeedleIsKey(pairs[k].left, pairs[k].right);
    hide UShort, Word, Needle, PairKey, PairValue, PairCount, ScanPairs;
    var key := pairs[k].left * 0x1_0000 + pairs[k].right;
    ScanPairsAt(mem, kern, key, 0, k);
    PairFound(mem, kern, key, k);
  }

  /** Glyphs that are no pair of the table have no kerning. */
  lemma NoPairIsFound(mem: Memory, kern: int, pairs: seq<Pair>, left: nat, right: nat)
    requires PairsAt(mem, kern, pairs) && left < 0x1_0000 && right < 0x1_0000
    requires forall k | 0 <= k < |pairs| :: !(pairs[k].left == left && pairs[k].right == right)
    ensures PairsSorted(mem, kern) && ScanPairs(mem, kern, Needle(left, right), 0) == 0
  {
    PairsRead(mem, kern, pairs);
    NeedleIsKey(left, right);
    hide UShort, Word, Needle, PairKey, PairCount, ScanPairs;
    var key := left * 0x1_0000 + right;
    ScanPairsAt(mem, kern, key, 0, |pairs|);
    PairMissing(mem, kern, key);
  }

  // ---------- Coverage ----------

  /** A list of glyphs gives each its place. */
  lemma CoverageListIsRead(mem: Memory, table: int, glyphs: seq<nat>, k: nat)
    requires Word(mem, table, 1) && |glyphs| < 0x1_0000 && Word(mem, table + 2, |glyphs|)
    requires forall i | 0 <= i < |glyphs| :: glyphs[i] < 0x1_0000 && Word(mem, table + 4 + 2 * i, glyphs[i])
    requires forall i, j | 0 <= i < j < |glyphs| :: glyphs[i] < glyphs[j]
    requires k < |glyphs|
    ensures CoverageSorted(mem, table) && UShort(mem, table) == 1 && ScanCoverage(mem, table, glyphs[k], 0) == k
  {
    WordIsUShort(mem, table, 1);
    WordIsUShort(mem, table + 2, |glyphs|);
    forall i | 0 <= i < |glyphs| ensures RangeStart(mem, table, i) == RangeEnd(mem, table, i) == glyphs[i] {
      WordIsUShort(mem, table + 4 + 2 * i, glyphs[i]);
    }
    hide UShort, Word, RangeStart, RangeEnd, ScanCoverage;
    ScanCoverageAt(mem, table, glyphs[k], 0, k);
    CoverageFound(mem, table, glyphs[k], k);
  }

  lemma RangeIsRead(mem: Memory, table: int, i: nat, range: Group)
    requires UShort(mem, table) == 2 && range.first < 0x1_0000 && range.last < 0x1_0000
    requires Word(mem, table + 4 + 6 * i, range.first) && Word(mem, table + 6 + 6 * i, range.last)
    ensures RangeStart(mem, table, i) == range.first && RangeEnd(mem, table, i) == range.last
  {
    hide UShort, Word;
    WordIsUShort(mem, table + 4 + 6 * i, range.first);
    WordIsUShort(mem, table + 6 + 6 * i, range.last);
  }

  /** Ranges of glyphs number theirs from a starting index on. */
  lemma CoverageRangesAreRead(mem: Memory, table: int, groups: seq<Group>, k: nat, glyph: nat)
    requires Word(mem, table, 2) && |groups| < 0x1_0000 && Word(mem, table + 2, |groups|)
    requires forall i | 0 <= i < |groups| ::
               && groups[i].first <= groups[i].last < 0x1_0000 && groups[i].glyph < 0x1_0000
               && Word(mem, table + 4 + 6 * i, groups[i].first) && Word(mem, table + 6 + 6 * i, groups[i].last)
               && Word(mem, table + 8 + 6 * i, groups[i].glyph)
    requires forall i, j | 0 <= i < j < |groups| :: groups[i].last < groups[j].first
    requires k < |groups| && groups[k].first <= glyph <= groups[k].last
    ensures CoverageSorted(mem, table) && UShort(mem, table) == 2
    ensures ScanCoverage(mem, table, glyph, 0) == groups[k].glyph + (glyph - groups[k].first)
  {
    hide UShort, Word, RangeStart, RangeEnd, ScanCoverage;
    WordIsUShort(mem, table, 2);
    WordIsUShort(mem, table + 2, |groups|);
    WordIsUShort(mem, table + 8 + 6 * k, groups[k].glyph);
    forall i | 0 <= i < |groups|
      ensures RangeStart(mem, table, i) == groups[i].first && RangeEnd(mem, table, i) == groups[i].last
    {
      RangeIsRead(mem, table, i, groups[i]);
    }
    ScanCoverageAt(mem, table, glyph, 0, k);
    CoverageFound(mem, table, glyph, k);
  }
}
