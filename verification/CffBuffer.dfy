/** The bounds-checked cursor `stbtt__buf`, CFF INDEX tables and Type 2 numbers. */
module CffBuffer {
  import opened MachineInts
  import opened Numerals

  datatype RawBuf = Buf(data: seq<byte>, cursor: nat)

  /** The cursor never leaves [0, size]. */
  type Buf = b: RawBuf | b.cursor <= |b.data| witness RawBuf.Buf([], 0)

  datatype Read<+T> = Read(value: T, rest: Buf)

  const EMPTY: Buf := RawBuf.Buf([], 0)

  function NewBuf(data: seq<byte>): (b: Buf) { RawBuf.Buf(data, 0) }

  function Remaining(b: Buf): nat { |b.data| - b.cursor }

  /** Reading past the end yields 0 and does not move. */
  function Get8(b: Buf): Read<byte> {
    if b.cursor >= |b.data| then Read(0, b)
    else Read(b.data[b.cursor], b.(cursor := b.cursor + 1))
  }

  /** An out-of-range target leaves the cursor at the end. */
  function Seek(b: Buf, o: int): Buf {
    b.(cursor := if o > |b.data| || o < 0 then |b.data| else o)
  }

  function Skip(b: Buf, o: int): Buf { Seek(b, b.cursor + o) }

  function Range(b: Buf, o: int, s: int): Buf {
    if o < 0 || s < 0 || o > |b.data| || s > |b.data| - o then EMPTY
    else NewBuf(b.data[o..o + s])
  }

  // ---------- Big-endian reads ----------

  /** The next `n` bytes, zero-filled past the end. */
  function Window(b: Buf, n: nat): (w: seq<byte>)
    ensures |w| == n
  {
    seq(n, i requires 0 <= i => if b.cursor + i < |b.data| then b.data[b.cursor + i] else 0)
  }

  function ReadBe(b: Buf, n: nat): Read<nat> {
    Read(WrapU32(BigEndian(Window(b, n))), b.(cursor := Min(b.cursor + n, |b.data|)))
  }

  lemma AppendByte(x: nat, c: byte)
    ensures WrapU32(WrapU32(x) * 0x100) + c == WrapU32(x * 0x100 + c)
    ensures WrapU32(0) == 0
  {
    var q, r := x / 0x1_0000_0000, WrapU32(x);
    var a, s := r / 0x100_0000, r % 0x100_0000;
    WrapIs(r * 0x100, a, s * 0x100);
    WrapIs(x * 0x100 + c, 0x100 * q + a, s * 0x100 + c);
  }

  lemma WrapIs(x: nat, q: nat, r: nat)
    requires x == 0x1_0000_0000 * q + r && r < 0x1_0000_0000
    ensures WrapU32(x) == r
  {
  }

  /** `stbtt__buf_get`: accumulates `(v << 8) | byte` in 32 bits. */
  method GetBigEndian(b: Buf, n: nat) returns (r: Read<nat>)
    ensures r == ReadBe(b, n)
  {
    hide WrapU32;
    var v: nat, cur := 0, b;
    assert WrapU32(0) == 0 by { AppendByte(0, 0); }
    for i := 0 to n
      invariant v == WrapU32(BigEndian(Window(b, i)))
      invariant cur == b.(cursor := Min(b.cursor + i, |b.data|))
    {
      var c := Get8(cur);
      assert Window(b, i + 1)[..i] == Window(b, i);
      AppendByte(BigEndian(Window(b, i)), c.value);
      v := WrapU32(v * 0x100) + c.value;
      cur := c.rest;
    }
    r := Read(v, cur);
  }

  // ---------- INDEX tables ----------

  function IndexCount(idx: Buf): nat { ReadBe(Seek(idx, 0), 2).value }

  /** Item `i` of the INDEX stored in `idx`; empty when the stored offsets leave the table. */
  function IndexItem(idx: Buf, i: int): Buf {
    var count := ReadBe(Seek(idx, 0), 2);
    var offSize := Get8(count.rest);
    var start := ReadBe(Skip(offSize.rest, i * offSize.value), offSize.value);
    var end := ReadBe(start.rest, offSize.value);
    Range(idx, 2 + (count.value + 1) * offSize.value + ToInt32(start.value),
          ToInt32(ToInt32(end.value) - ToInt32(start.value)))
  }

  /** `stbtt__cff_index_get`. */
  method GetIndexItem(idx: Buf, i: int) returns (item: Buf)
    ensures item == IndexItem(idx, i)
  {
    var b := Seek(idx, 0);
    var count := GetBigEndian(b, 2);
    var offSize := Get8(count.rest);
    b := Skip(offSize.rest, i * offSize.value);
    var start := GetBigEndian(b, offSize.value);
    var end := GetBigEndian(start.rest, offSize.value);
    item := Range(idx, 2 + (count.value + 1) * offSize.value + ToInt32(start.value),
                  ToInt32(ToInt32(end.value) - ToInt32(start.value)));
  }

  /** An offset that takes the n bytes from `at`. */
  function StoredOffset(data: seq<byte>, at: nat, n: nat): int
    requires at + n <= |data|
  {
    ToInt32(BigEndian(data[at..at + n]))
  }

  lemma WindowInside(b: Buf, n: nat)
    requires b.cursor + n <= |b.data|
    ensures Window(b, n) == b.data[b.cursor..b.cursor + n]
  {
  }

  lemma WrapToInt32(v: nat)
    ensures ToInt32(WrapU32(v)) == ToInt32(v)
  {
  }

  /** When the offset array is there, item `i` is what lies between its two offsets, counted from the byte
      before the data; offsets that are not in order or lead outside give nothing. */
  lemma ItemIsSlice(idx: Buf, count: nat, offSize: nat, i: nat)
    requires 3 <= |idx.data| < 0x8000_0000 && count == BigEndian(idx.data[..2]) && offSize == idx.data[2]
    requires 1 <= offSize <= 4 && i < count && 3 + (count + 1) * offSize <= |idx.data|
    ensures i * offSize + 2 * offSize <= (count + 1) * offSize
    ensures var at, base := 3 + i * offSize, 2 + (count + 1) * offSize;
            var from := base + StoredOffset(idx.data, at, offSize);
            var to := base + StoredOffset(idx.data, at + offSize, offSize);
            IndexItem(idx, i) == if 0 <= from <= to <= |idx.data| then NewBuf(idx.data[from..to]) else EMPTY
  {
    hide IndexItem, StoredOffset, ReadBe, BigEndian;
    ArrayHoldsItem(offSize, i, count);
    ReadCount(idx, count);
    ItemAt(idx, count, offSize, i * offSize, (count + 1) * offSize, i);
  }

  lemma ArrayHoldsItem(offSize: nat, i: nat, count: nat)
    requires i < count
    ensures i * offSize + 2 * offSize <= (count + 1) * offSize
  {
    var more: nat := count - 1 - i;
    assert i * offSize + 2 * offSize + more * offSize == (i + 2 + more) * offSize;
  }

  lemma ReadCount(idx: Buf, count: nat)
    requires |idx.data| >= 3 && count == BigEndian(idx.data[..2])
    ensures ReadBe(Seek(idx, 0), 2) == Read(count, RawBuf.Buf(idx.data, 2))
  {
    hide BigEndian;
    WindowInside(Seek(idx, 0), 2);
    assert idx.data[0..2] == idx.data[..2];
    ToFrom(idx.data[..2]);
    Pow256Bounds(2);
    SmallPower();
  }

  lemma SmallPower()
    ensures Pow256(2) == 0x1_0000
  {
    assert Pow256(2) == 0x100 * Pow256(1) && Pow256(1) == 0x100 * Pow256(0);
  }

  lemma ItemAt(idx: Buf, count: nat, offSize: nat, before: nat, whole: nat, i: nat)
    requires |idx.data| >= 2 && ReadBe(Seek(idx, 0), 2) == Read(count, RawBuf.Buf(idx.data, 2))
    requires 3 + whole <= |idx.data| < 0x8000_0000 && offSize == idx.data[2] && before + 2 * offSize <= whole
    requires before == i * offSize && whole == (count + 1) * offSize
    ensures var from := 2 + whole + StoredOffset(idx.data, 3 + before, offSize);
            var to := 2 + whole + StoredOffset(idx.data, 3 + before + offSize, offSize);
            IndexItem(idx, i) == if 0 <= from <= to <= |idx.data| then NewBuf(idx.data[from..to]) else EMPTY
  {
    hide BigEndian, ToInt32, WrapU32, ReadBe, Range, StoredOffset;
    var at: Buf := RawBuf.Buf(idx.data, 3 + before);
    ItemOffset(at, offSize);
    ItemOffset(ReadBe(at, offSize).rest, offSize);
    assert Skip(RawBuf.Buf(idx.data, 3), i * offSize) == at;
    RangeOfOffsets(idx, 2 + whole, ReadBe(at, offSize).value, ReadBe(ReadBe(at, offSize).rest, offSize).value);
  }

  lemma ItemOffset(at: Buf, n: nat)
    requires at.cursor + n <= |at.data|
    ensures ToInt32(ReadBe(at, n).value) == StoredOffset(at.data, at.cursor, n)
    ensures ReadBe(at, n).rest == RawBuf.Buf(at.data, at.cursor + n)
  {
    hide BigEndian, ToInt32, WrapU32;
    WindowInside(at, n);
    WrapToInt32(BigEndian(Window(at, n)));
  }

  lemma RangeOfOffsets(idx: Buf, base: nat, s: nat, e: nat)
    requires base <= |idx.data| < 0x8000_0000
    ensures var from, to := base + ToInt32(s), base + ToInt32(e);
            Range(idx, from, ToInt32(ToInt32(e) - ToInt32(s))) ==
            if 0 <= from <= to <= |idx.data| then NewBuf(idx.data[from..to]) else EMPTY
  {
  }

  // The writer of the format, the inverse against which the reader is checked.

  function Concat(items: seq<seq<byte>>): seq<byte> {
    if items == [] then [] else Concat(items[..|items| - 1]) + items[|items| - 1]
  }

  /** The first `n` one-based offsets of an INDEX. */
  function OffsetArray(items: seq<seq<byte>>, n: nat, offSize: nat): (s: seq<byte>)
    requires n <= |items| + 1
    ensures |s| == n * offSize
  {
    if n == 0 then []
    else OffsetArray(items, n - 1, offSize) + ToBigEndian(1 + |Concat(items[..n - 1])|, offSize)
  }

  function EncodeIndex(items: seq<seq<byte>>, offSize: nat): seq<byte>
    requires 1 <= offSize <= 4
  {
    ToBigEndian(|items|, 2) + [offSize] + OffsetArray(items, |items| + 1, offSize) + Concat(items)
  }

  lemma {:induction false} ConcatPrefix(items: seq<seq<byte>>, i: nat)
    requires i < |items|
    ensures |Concat(items[..i])| + |items[i]| <= |Concat(items)|
    ensures |Concat(items[..i + 1])| == |Concat(items[..i])| + |items[i]|
    ensures Concat(items)[|Concat(items[..i])|..|Concat(items[..i])| + |items[i]|] == items[i]
  {
    assert items[..i + 1][..i] == items[..i];
    if i < |items| - 1 {
      var front := items[..|items| - 1];
      assert front[..i] == items[..i];
      ConcatPrefix(front, i);
    } else {
      assert items[..i + 1] == items;
    }
  }

  lemma {:induction false} OffsetSplit(items: seq<seq<byte>>, n: nat, offSize: nat, i: nat) returns (tail: seq<byte>)
    requires i < n <= |items| + 1
    ensures OffsetArray(items, n, offSize)
         == OffsetArray(items, i, offSize) + ToBigEndian(1 + |Concat(items[..i])|, offSize) + tail
  {
    if i < n - 1 {
      var front := OffsetSplit(items, n - 1, offSize, i);
      tail := front + ToBigEndian(1 + |Concat(items[..n - 1])|, offSize);
    } else {
      tail := [];
    }
  }

  lemma Pow256Bounds(n: nat)
    requires n <= 4
    ensures Pow256(n) <= 0x1_0000_0000
  {
    assert Pow256(4) == 0x100 * Pow256(3) && Pow256(3) == 0x100 * Pow256(2);
    assert Pow256(2) == 0x100 * Pow256(1) && Pow256(1) == 0x100 * Pow256(0);
  }

  /** A value written in `n` bytes anywhere in the data is read back by a cursor placed on it. */
  lemma ReadWritten(pre: seq<byte>, v: nat, n: nat, post: seq<byte>, b: Buf)
    requires n <= 4 && v < Pow256(n)
    requires b == RawBuf.Buf(pre + ToBigEndian(v, n) + post, |pre|)
    ensures ReadBe(b, n) == Read(v, b.(cursor := |pre| + n))
  {
    hide ToBigEndian, BigEndian, Pow256;
    var digits := ToBigEndian(v, n);
    forall k: nat | k < n
      ensures Window(b, n)[k] == digits[k]
    {
      assert b.data[|pre| + k] == digits[k];
    }
    assert Window(b, n) == digits;
    assert BigEndian(digits) == v by { FromTo(v, n); }
    assert v < 0x1_0000_0000 by { Pow256Bounds(n); }
  }

  /** The part of an encoded INDEX before the offset of item `i`. */
  function BeforeOffset(items: seq<seq<byte>>, offSize: nat, i: nat): (s: seq<byte>)
    requires offSize <= 4 && i <= |items|
    ensures |s| == 3 + i * offSize
  {
    ToBigEndian(|items|, 2) + [offSize] + OffsetArray(items, i, offSize)
  }

  /** The offset stored for item `i` is read back from the encoded table. */
  lemma ReadOffset(items: seq<seq<byte>>, offSize: nat, i: nat, b: Buf)
    requires 1 <= offSize <= 4 && i <= |items|
    requires 1 + |Concat(items[..i])| < Pow256(offSize)
    requires b.data == EncodeIndex(items, offSize) && b.cursor == |BeforeOffset(items, offSize, i)|
    requires b.cursor + offSize <= |b.data|
    ensures ReadBe(b, offSize) == Read(1 + |Concat(items[..i])|, b.(cursor := b.cursor + offSize))
  {
    hide Concat, OffsetArray, ReadBe, Pow256;
    var tail := OffsetSplit(items, |items| + 1, offSize, i);
    var v := 1 + |Concat(items[..i])|;
    var pre := BeforeOffset(items, offSize, i);
    assert b.data == pre + ToBigEndian(v, offSize) + (tail + Concat(items));
    ReadWritten(pre, v, offSize, tail + Concat(items), b);
  }

  lemma ReadHeader(items: seq<seq<byte>>, offSize: nat)
    requires 1 <= offSize <= 4 && |items| < 0x1_0000
    ensures var b := NewBuf(EncodeIndex(items, offSize));
            |b.data| >= 3 && ReadBe(b, 2) == Read(|items|, b.(cursor := 2)) && b.data[2] == offSize
  {
    var b := NewBuf(EncodeIndex(items, offSize));
    var tail := [offSize] + OffsetArray(items, |items| + 1, offSize) + Concat(items);
    assert b.data == [] + ToBigEndian(|items|, 2) + tail;
    assert Pow256(2) == 0x100 * Pow256(1) && Pow256(1) == 0x100 * Pow256(0);
    ReadWritten([], |items|, 2, tail, b);
  }

  /** The two offsets that delimit item `i`, as the reader finds them. */
  lemma ReadOffsets(items: seq<seq<byte>>, offSize: nat, i: nat, atStart: Buf)
    requires 1 <= offSize <= 4 && i < |items|
    requires 1 + |Concat(items)| < Pow256(offSize)
    requires atStart == RawBuf.Buf(EncodeIndex(items, offSize), |BeforeOffset(items, offSize, i)|)
    ensures var start := ReadBe(atStart, offSize);
            && start.value == 1 + |Concat(items[..i])|
            && ReadBe(start.rest, offSize).value == 1 + |Concat(items[..i])| + |items[i]|
            && |Concat(items[..i])| + |items[i]| <= |Concat(items)|
  {
    ConcatPrefix(items, i);
    StartsInside(items, offSize, i);
    StartsInside(items, offSize, i + 1);
    ReadOffset(items, offSize, i, atStart);
    assert (i + 1) * offSize == i * offSize + offSize;
    ReadOffset(items, offSize, i + 1, ReadBe(atStart, offSize).rest);
  }

  /** The reader inverts the writer on every item. */
  lemma IndexRoundTrip(items: seq<seq<byte>>, offSize: nat, i: nat)
    requires 1 <= offSize <= 4 && i < |items| < 0x1_0000
    requires 1 + |Concat(items)| < Pow256(offSize) && 1 + |Concat(items)| < 0x8000_0000
    ensures IndexCount(NewBuf(EncodeIndex(items, offSize))) == |items|
    ensures IndexItem(NewBuf(EncodeIndex(items, offSize)), i) == NewBuf(items[i])
  {
    hide ReadBe, EncodeIndex, Concat, OffsetArray, Pow256;
    var idx := NewBuf(EncodeIndex(items, offSize));
    ReadHeader(items, offSize);
    StartsInside(items, offSize, i);
    var atStart := Skip(RawBuf.Buf(idx.data, 3), i * offSize);
    ReadOffsets(items, offSize, i, atStart);
    ItemBytes(items, offSize, i);
  }

  lemma StartsInside(items: seq<seq<byte>>, offSize: nat, i: nat)
    requires 1 <= offSize <= 4 && i <= |items|
    ensures 3 + i * offSize + offSize <= |EncodeIndex(items, offSize)|
  {
    var tail := OffsetSplit(items, |items| + 1, offSize, i);
  }

  lemma ItemBytes(items: seq<seq<byte>>, offSize: nat, i: nat)
    requires 1 <= offSize <= 4 && i < |items|
    ensures var o := 3 + (|items| + 1) * offSize + |Concat(items[..i])|;
            var data := EncodeIndex(items, offSize);
            o + |items[i]| <= |data| && data[o..o + |items[i]|] == items[i]
  {
    ConcatPrefix(items, i);
    var pre := ToBigEndian(|items|, 2) + [offSize] + OffsetArray(items, |items| + 1, offSize);
    var data := EncodeIndex(items, offSize);
    var from := |Concat(items[..i])|;
    assert data == pre + Concat(items);
    assert data[|pre| + from..|pre| + from + |items[i]|] == Concat(items)[from..from + |items[i]|];
  }

  // ---------- Type 2 numbers ----------

  predicate IsNumberByte(b0: byte) { b0 == 255 || b0 == 28 || 32 <= b0 <= 254 }

  /** The operand that starts at the cursor, whose first byte is `b0`. */
  function Number(b: Buf): (r: Read<real>)
    requires b.cursor < |b.data| && IsNumberByte(b.data[b.cursor])
    ensures r.rest.data == b.data && r.rest.cursor > b.cursor
  {
    var b0 := Get8(b);
    if b0.value == 255 then
      var v := ReadBe(b0.rest, 4);
      Read(ToInt32(v.value) as real / 65536.0, v.rest)
    else if b0.value == 28 then
      var v := ReadBe(b0.rest, 2);
      Read(ToInt16(v.value) as real, v.rest)
    else if b0.value <= 246 then
      Read((b0.value - 139) as real, b0.rest)
    else
      var b1 := Get8(b0.rest);
      if b0.value <= 250 then Read(((b0.value - 247) * 256 + b1.value + 108) as real, b1.rest)
      else Read((-(b0.value - 251) * 256 - b1.value - 108) as real, b1.rest)
  }

  /** The shortest encoding of a 16-bit operand. */
  function EncodeNumber(v: int): seq<byte>
    requires -0x8000 <= v < 0x8000
  {
    if -107 <= v <= 107 then [v + 139]
    else if 108 <= v <= 1131 then [247 + (v - 108) / 256, (v - 108) % 256]
    else if -1131 <= v <= -108 then [251 + (-v - 108) / 256, (-v - 108) % 256]
    else [28] + ToBigEndian(v % 0x1_0000, 2)
  }

  lemma NumberRoundTrip(v: int, tail: seq<byte>)
    requires -0x8000 <= v < 0x8000
    ensures |EncodeNumber(v)| > 0 && IsNumberByte(EncodeNumber(v)[0])
    ensures var b := NewBuf(EncodeNumber(v) + tail);
            Number(b) == Read(v as real, b.(cursor := |EncodeNumber(v)|))
  {
    if -1131 <= v <= 1131 {
      ShortNumberRoundTrip(v, tail);
    } else {
      LongNumberRoundTrip(v, tail);
    }
  }

  /** Operands in 16.16 fixed point, behind a byte of 255. */
  lemma FixedRoundTrip(v: int, tail: seq<byte>)
    requires -0x8000_0000 <= v < 0x8000_0000
    ensures var b := NewBuf([255] + ToBigEndian(v % 0x1_0000_0000, 4) + tail);
            Number(b) == Read(v as real / 65536.0, b.(cursor := 5))
  {
    hide ReadBe, ToBigEndian;
    var b := NewBuf([255] + ToBigEndian(v % 0x1_0000_0000, 4) + tail);
    var b1 := Get8(b).rest;
    FourBytes();
    ReadWritten([255], v % 0x1_0000_0000, 4, tail, b1);
    SignedAgain(v);
    hide ToInt32;
  }

  lemma FourBytes()
    ensures Pow256(4) == 0x1_0000_0000
  {
    assert Pow256(4) == 0x100 * Pow256(3) && Pow256(3) == 0x100 * Pow256(2);
    assert Pow256(2) == 0x100 * Pow256(1) && Pow256(1) == 0x100 * Pow256(0);
  }

  lemma SignedAgain(v: int)
    requires -0x8000_0000 <= v < 0x8000_0000
    ensures ToInt32(v % 0x1_0000_0000) == v
  {
  }

  lemma ShortNumberRoundTrip(v: int, tail: seq<byte>)
    requires -1131 <= v <= 1131
    ensures var b := NewBuf(EncodeNumber(v) + tail);
            Number(b) == Read(v as real, b.(cursor := |EncodeNumber(v)|))
  {
    hide ReadBe, ToBigEndian, ToInt16;
  }

  lemma LongNumberRoundTrip(v: int, tail: seq<byte>)
    requires -0x8000 <= v < -1131 || 1131 < v < 0x8000
    ensures var b := NewBuf(EncodeNumber(v) + tail);
            Number(b) == Read(v as real, b.(cursor := |EncodeNumber(v)|))
  {
    hide ReadBe, ToBigEndian;
    var b := NewBuf(EncodeNumber(v) + tail);
    var b1 := Get8(b).rest;
    assert Pow256(2) == 0x100 * Pow256(1) && Pow256(1) == 0x100 * Pow256(0);
    assert b.data == [28] + ToBigEndian(v % 0x1_0000, 2) + tail;
    ReadWritten([28], v % 0x1_0000, 2, tail, b1);
  }
}
