/** The CRC that guards the calibration partition: a table per half byte, against the CRC bit by bit. */
module CalibrationCrc {

  type Bytes = seq<bv8>
  type Bits = seq<bool>
  type Word = bv16

  const INITIAL: Word := 0x55AA

  /** The polynomial, lowest power in the top bit. */
  const POLYNOMIAL: Word := 0xA001

  // ---------- Words ----------

  function Xor(a: Word, b: Word): Word { a ^ b }

  function Half(v: Word): Word { v >> 1 }

  predicate Odd(v: Word) { v & 1 == 1 }

  function Double(v: Word): Word { v << 1 }

  function LowNibble(v: Word): Word { v & 0xF }

  function AboveNibble(v: Word): Word { v >> 4 }

  function AboveByte(v: Word): Word { v >> 8 }

  function Join(lo: Word, hi: Word): Word { lo | (hi << 8) }

  function AsWord(b: bool): Word { if b then 1 else 0 }

  lemma XorRegroups(a: Word, b: Word, c: Word)
    ensures Xor(Xor(a, b), c) == Xor(a, Xor(b, c))
  {
  }

  lemma XorCommutes(a: Word, b: Word)
    ensures Xor(a, b) == Xor(b, a)
  {
  }

  lemma XorZero(a: Word)
    ensures Xor(a, a) == 0 && Xor(a, 0) == a
  {
  }

  lemma XorLaws(a: Word, b: Word, c: Word)
    ensures Xor(Xor(a, b), c) == Xor(a, Xor(b, c)) && Xor(a, b) == Xor(b, a)
    ensures Xor(a, a) == 0 && Xor(a, 0) == a && Xor(0, a) == a
    ensures Xor(Xor(a, b), b) == a && Xor(Xor(a, c), Xor(b, c)) == Xor(a, b)
    ensures Xor(Xor(a, c), b) == Xor(Xor(a, b), c)
  {
    hide Xor;
    XorRegroups(a, b, c);
    XorRegroups(a, c, b);
    XorRegroups(a, b, b);
    XorRegroups(a, c, Xor(b, c));
    XorRegroups(c, b, c);
    XorRegroups(b, c, c);
    XorCommutes(a, b);
    XorCommutes(b, c);
    XorCommutes(c, Xor(b, c));
    XorCommutes(0, a);
    XorZero(a);
    XorZero(b);
    XorZero(c);
  }

  lemma HalvesOfXor(a: Word, b: Word)
    ensures Half(Xor(a, b)) == Xor(Half(a), Half(b))
    ensures Odd(Xor(a, b)) <==> Odd(a) != Odd(b)
  {
  }

  lemma SmallWords(b: bool)
    ensures Half(AsWord(b)) == 0 && Odd(AsWord(b)) == b && AsWord(false) == 0
  {
  }

  // ---------- Bit by bit ----------

  /** One step of the shift register. */
  function Shift(crc: Word): Word { if Odd(crc) then Xor(Half(crc), POLYNOMIAL) else Half(crc) }

  function Shifts(crc: Word, n: nat): Word
    decreases n
  {
    if n == 0 then crc else Shifts(Shift(crc), n - 1)
  }

  function FeedBit(crc: Word, b: bool): Word { Shift(Xor(crc, AsWord(b))) }

  function Feed(crc: Word, bits: Bits): Word
    decreases |bits|
  {
    if bits == [] then crc else Feed(FeedBit(crc, bits[0]), bits[1..])
  }

  /** The n low bits of a word, lowest first. */
  function LowBits(v: Word, n: nat): (r: Bits)
    ensures |r| == n
    decreases n
  {
    if n == 0 then [] else [Odd(v)] + LowBits(Half(v), n - 1)
  }

  /** The word without its n low bits. */
  function High(v: Word, n: nat): Word
    decreases n
  {
    if n == 0 then v else High(Half(v), n - 1)
  }

  function AllBits(data: Bytes): (r: Bits)
    ensures |r| == 8 * |data|
  {
    if data == [] then [] else LowBits(data[0] as Word, 8) + AllBits(data[1..])
  }

  /** The definition: every bit of the data, one at a time. */
  function BitSerialCrc(data: Bytes): Word { Feed(INITIAL, AllBits(data)) }

  lemma {:induction false} FeedConcat(crc: Word, a: Bits, b: Bits)
    ensures Feed(crc, a + b) == Feed(Feed(crc, a), b)
    decreases |a|
  {
    hide FeedBit;
    if a == [] {
      assert a + b == b;
    } else {
      assert (a + b)[0] == a[0] && (a + b)[1..] == a[1..] + b;
      FeedConcat(FeedBit(crc, a[0]), a[1..], b);
    }
  }

  lemma ShiftIsLinear(a: Word, b: Word)
    ensures Shift(Xor(a, b)) == Xor(Shift(a), Shift(b))
  {
    hide Xor, Half, Odd;
    HalvesOfXor(a, b);
    XorLaws(Half(a), Half(b), POLYNOMIAL);
    XorLaws(Half(b), POLYNOMIAL, Half(a));
  }

  lemma ShiftAbsorbsBit(crc: Word, v: Word)
    ensures Shift(Xor(crc, v)) == Xor(FeedBit(crc, Odd(v)), Half(v))
  {
    hide Xor, Half, Odd, AsWord;
    var low := AsWord(Odd(v));
    SmallWords(Odd(v));
    XorLaws(Half(v), POLYNOMIAL, 0);
    XorLaws(POLYNOMIAL, 0, 0);
    assert Shift(v) == Xor(Shift(low), Half(v));
    ShiftIsLinear(crc, v);
    ShiftIsLinear(crc, low);
    hide Shift;
    XorLaws(Shift(crc), Shift(low), Half(v));
  }

  /** Mixing a word in and shifting n times feeds its n low bits; the others have not mattered yet. */
  lemma {:induction false} ShiftsAbsorb(crc: Word, v: Word, n: nat)
    ensures Shifts(Xor(crc, v), n) == Xor(Feed(crc, LowBits(v, n)), High(v, n))
    decreases n
  {
    hide Xor, Half, Odd, Shift, FeedBit;
    if n > 0 {
      ShiftAbsorbsBit(crc, v);
      ShiftsAbsorb(FeedBit(crc, Odd(v)), Half(v), n - 1);
      assert LowBits(v, n)[1..] == LowBits(Half(v), n - 1);
    }
  }

  lemma {:induction false} ShiftsTwice(crc: Word, m: nat, n: nat)
    ensures Shifts(crc, m + n) == Shifts(Shifts(crc, m), n)
    decreases m
  {
    hide Shift;
    if m > 0 { ShiftsTwice(Shift(crc), m - 1, n); }
  }

  lemma {:induction false} HighTwice(v: Word, m: nat, n: nat)
    ensures High(v, m + n) == High(High(v, m), n)
    decreases m
  {
    hide Half;
    if m > 0 { HighTwice(Half(v), m - 1, n); }
  }

  lemma HighFour(v: Word)
    ensures High(v, 4) == AboveNibble(v)
  {
    var v1 := Half(v);
    var v2 := Half(v1);
    var v3 := Half(v2);
    assert High(v, 4) == Half(v3) by {
      hide Half;
      assert High(v3, 1) == High(Half(v3), 0);
      assert High(v2, 2) == High(v3, 1) && High(v1, 3) == High(v2, 2) && High(v, 4) == High(v1, 3);
    }
    hide High;
  }

  lemma HighEight(v: Word)
    ensures High(v, 8) == AboveByte(v)
  {
    hide *;
    HighFour(v);
    HighFour(AboveNibble(v));
    HighTwice(v, 4, 4);
    TwoNibbles(v);
  }

  lemma TwoNibbles(v: Word)
    ensures AboveNibble(AboveNibble(v)) == AboveByte(v)
  {
  }

  // ---------- The table ----------

  function Table(n: Word): Word {
    if n == 0x0 then 0x0000 else if n == 0x1 then 0xCC01 else if n == 0x2 then 0xD801 else if n == 0x3 then 0x1400
    else if n == 0x4 then 0xF001 else if n == 0x5 then 0x3C00 else if n == 0x6 then 0x2800
    else if n == 0x7 then 0xE401 else if n == 0x8 then 0xA001 else if n == 0x9 then 0x6C00
    else if n == 0xA then 0x7800 else if n == 0xB then 0xB401 else if n == 0xC then 0x5000
    else if n == 0xD then 0x9C01 else if n == 0xE then 0x8801 else 0x4400
  }

  /** The register after one half of a byte, which is the low half of `d`. */
  function HalfByte(crc: Word, d: Word): Word {
    Xor(Xor(AboveNibble(crc), Table(LowNibble(crc))), Table(LowNibble(d)))
  }

  function TableByte(crc: Word, d: Word): Word { HalfByte(HalfByte(crc, d), AboveNibble(d)) }

  lemma FourTimes(crc: Word)
    ensures Shifts(crc, 4) == Shift(Shift(Shift(Shift(crc))))
  {
    hide Shift;
    var c1 := Shift(crc);
    var c2 := Shift(c1);
    var c3 := Shift(c2);
    assert Shifts(c3, 1) == Shifts(Shift(c3), 0);
    assert Shifts(c2, 2) == Shifts(c3, 1) && Shifts(c1, 3) == Shifts(c2, 2) && Shifts(crc, 4) == Shifts(c1, 3);
  }

  /** The table holds what four steps make of a half byte. */
  lemma TableIsFourShifts(n: Word)
    requires n < 0x10
    ensures Shifts(n, 4) == Table(n)
  {
    FourTimes(n);
    hide Shifts;
  }

  lemma NibbleBits(v: Word)
    ensures LowBits(v, 4) == LowBits(LowNibble(v), 4)
  {
    var w := LowNibble(v);
    var v1, w1 := Half(v), Half(w);
    var v2, w2 := Half(v1), Half(w1);
    var v3, w3 := Half(v2), Half(w2);
    assert Odd(v) == Odd(w) && Odd(v1) == Odd(w1) && Odd(v2) == Odd(w2) && Odd(v3) == Odd(w3);
    hide Half, Odd;
    assert LowBits(v3, 1) == [Odd(v3)] == LowBits(w3, 1);
    assert LowBits(v2, 2) == [Odd(v2)] + LowBits(v3, 1) && LowBits(w2, 2) == [Odd(w2)] + LowBits(w3, 1);
    assert LowBits(v1, 3) == [Odd(v1)] + LowBits(v2, 2) && LowBits(w1, 3) == [Odd(w1)] + LowBits(w2, 2);
  }

  lemma NibbleIsSmall(v: Word)
    ensures LowNibble(v) < 0x10 && AboveNibble(LowNibble(v)) == 0 && LowNibble(LowNibble(v)) == LowNibble(v)
  {
  }

  lemma FourShifts(crc: Word)
    ensures Shifts(crc, 4) == Xor(AboveNibble(crc), Table(LowNibble(crc)))
  {
    hide *;
    var low := LowNibble(crc);
    NibbleIsSmall(crc);
    TableIsFourShifts(low);
    ShiftsAbsorb(0, crc, 4);
    ShiftsAbsorb(0, low, 4);
    NibbleBits(crc);
    HighFour(crc);
    HighFour(low);
    XorLaws(crc, 0, 0);
    XorLaws(low, 0, 0);
    XorLaws(AboveNibble(crc), Table(low), 0);
    XorLaws(Feed(0, LowBits(low, 4)), 0, 0);
  }

  lemma {:induction false} ShiftsAreLinear(a: Word, b: Word, n: nat)
    ensures Shifts(Xor(a, b), n) == Xor(Shifts(a, n), Shifts(b, n))
    decreases n
  {
    hide Xor, Shift;
    if n > 0 {
      ShiftIsLinear(a, b);
      ShiftsAreLinear(Shift(a), Shift(b), n - 1);
    }
  }

  lemma NibbleOfXor(a: Word, b: Word)
    ensures LowNibble(Xor(a, b)) == Xor(LowNibble(a), LowNibble(b))
  {
  }

  lemma TableIsLinear(a: Word, b: Word)
    ensures Table(LowNibble(Xor(a, b))) == Xor(Table(LowNibble(a)), Table(LowNibble(b)))
  {
    hide *;
    NibbleOfXor(a, b);
    NibbleIsSmall(a);
    NibbleIsSmall(b);
    NibbleIsSmall(Xor(a, b));
    TableIsFourShifts(LowNibble(a));
    TableIsFourShifts(LowNibble(b));
    TableIsFourShifts(LowNibble(Xor(a, b)));
    ShiftsAreLinear(LowNibble(a), LowNibble(b), 4);
  }

  lemma MixedNibble(crc: Word, d: Word)
    ensures AboveNibble(Xor(crc, LowNibble(d))) == AboveNibble(crc)
  {
  }

  lemma HalfByteIsFourShifts(crc: Word, d: Word)
    ensures HalfByte(crc, d) == Shifts(Xor(crc, LowNibble(d)), 4)
  {
    hide Xor, LowNibble, AboveNibble, Table, Shifts;
    var n := LowNibble(d);
    NibbleIsSmall(d);
    TableIsLinear(crc, n);
    MixedNibble(crc, d);
    FourShifts(Xor(crc, n));
    XorRegroups(AboveNibble(crc), Table(LowNibble(crc)), Table(n));
  }

  /** A byte is its low half under its high half. */
  lemma HalvesOfByte(crc: Word, w: Word)
    requires w < 0x100
    ensures var hi := AboveNibble(w);
            && LowNibble(hi) == hi
            && LowNibble(hi << 4) == 0 && AboveNibble(hi << 4) == hi
            && Xor(Xor(crc, LowNibble(w)), hi << 4) == Xor(crc, w)
  {
  }

  /** Bits that have not reached the bottom after four steps do not matter to them. */
  lemma HighBitsWait(crc: Word, v: Word)
    requires LowNibble(v) == 0
    ensures Shifts(Xor(crc, v), 4) == Xor(Shifts(crc, 4), AboveNibble(v))
  {
    hide *;
    NibbleBits(v);
    ShiftsAbsorb(crc, v, 4);
    ShiftsAbsorb(crc, 0, 4);
    HighFour(v);
    HighFour(0);
    ZeroShifted();
    XorLaws(crc, 0, 0);
    XorLaws(Feed(crc, LowBits(0, 4)), 0, 0);
  }

  lemma ZeroShifted()
    ensures AboveNibble(0) == 0
  {
  }

  lemma ByteIsSmall(d: bv8)
    ensures d as Word < 0x100 && AboveByte(d as Word) == 0
  {
  }

  /** Feeding a byte bit by bit is what the table does. */
  lemma TableByteIsBitSerial(crc: Word, d: bv8)
    ensures TableByte(crc, d as Word) == Feed(crc, LowBits(d as Word, 8))
  {
    var w := d as Word;
    var lo, hi, start := LowNibble(w), AboveNibble(w), HalfByte(crc, w);
    assert TableByte(crc, w) == HalfByte(start, hi);
    hide *;
    ByteIsSmall(d);
    HalvesOfByte(crc, w);
    HalfByteIsFourShifts(crc, w);
    HalfByteIsFourShifts(start, hi);
    HighBitsWait(Xor(crc, lo), hi << 4);
    ShiftsTwice(Xor(crc, w), 4, 4);
    ShiftsAbsorb(crc, w, 8);
    HighEight(w);
    XorLaws(Feed(crc, LowBits(w, 8)), 0, 0);
  }

  /** `GetCrc16`. */
  method GetCrc16(data: Bytes) returns (crc: Word)
    ensures crc == BitSerialCrc(data)
  {
    hide HalfByte, LowBits, Feed;
    crc := INITIAL;
    var i := 0;
    assert data[i..] == data;
    while i < |data|
      invariant 0 <= i <= |data| && Feed(crc, AllBits(data[i..])) == BitSerialCrc(data)
    {
      assert data[i..][0] == data[i] && data[i..][1..] == data[i + 1..];
      TableByteIsBitSerial(crc, data[i]);
      FeedConcat(crc, LowBits(data[i] as Word, 8), AllBits(data[i + 1..]));
      crc := HalfByte(crc, data[i] as Word);
      crc := HalfByte(crc, AboveNibble(data[i] as Word));
      i := i + 1;
    }
    FeedNothing(crc);
  }

  lemma FeedNothing(crc: Word)
    ensures Feed(crc, []) == crc
  {
  }

  // ---------- Bursts ----------

  lemma ShiftIsInjective(a: Word, b: Word)
    requires Shift(a) == Shift(b)
    ensures a == b
  {
  }

  lemma {:induction false} FeedIsInjective(a: Word, b: Word, bits: Bits)
    requires Feed(a, bits) == Feed(b, bits)
    ensures a == b
    decreases |bits|
  {
    hide Xor, Shift;
    if bits != [] {
      var v := AsWord(bits[0]);
      FeedIsInjective(FeedBit(a, bits[0]), FeedBit(b, bits[0]), bits[1..]);
      ShiftIsInjective(Xor(a, v), Xor(b, v));
      XorLaws(a, v, 0);
      XorLaws(b, v, 0);
    }
  }

  /** The highest power of two that a difference must reach to last n more steps. */
  function Power(n: nat): Word { if n == 0 then 1 else Double(Power(n - 1)) }

  lemma Powers(n: nat)
    requires n <= 15
    ensures n == 15 ==> Power(n) == 0x8000
    ensures n < 15 ==> 1 <= Power(n) <= 0x4000
    ensures Power(n) <= 0x8000
  {
    assert Power(1) == 2 && Power(2) == 4 && Power(3) == 8;
    assert Power(4) == 0x10 && Power(5) == 0x20 && Power(6) == 0x40 && Power(7) == 0x80;
    assert Power(8) == 0x100 && Power(9) == 0x200 && Power(10) == 0x400 && Power(11) == 0x800;
    assert Power(12) == 0x1000 && Power(13) == 0x2000 && Power(14) == 0x4000;
    hide Power;
    assert n == 0 || n == 1 || n == 2 || n == 3 || n == 4 || n == 5 || n == 6 || n == 7
        || n == 8 || n == 9 || n == 10 || n == 11 || n == 12 || n == 13 || n == 14 || n == 15;
  }

  predicate Reaches(d: Word, p: Word) { d >= p }

  /** Whether twice `p` is still a word. */
  predicate Halvable(p: Word) { 1 <= p <= 0x4000 }

  lemma HighestFalls(d: Word, e: bool, p: Word)
    requires Halvable(p) && Reaches(d, Double(p))
    ensures Reaches(Shift(Xor(d, AsWord(e))), p)
  {
    hide Xor, Half, Odd, Double;
    HalvesOfXor(d, AsWord(e));
    SmallWords(e);
    XorLaws(Half(d), 0, 0);
    HalfIsLarge(d, p);
  }

  lemma HalfIsLarge(d: Word, p: Word)
    requires 1 <= p <= 0x4000 && d >= Double(p)
    ensures Half(d) >= p && Xor(Half(d), POLYNOMIAL) >= 0x8000
  {
  }

  /** The difference of two registers that are fed bits `a` and `b`: its highest set bit falls by at most
      one place a step. */
  lemma DifferenceFalls(x: Word, y: Word, a: bool, b: bool, p: Word)
    requires Halvable(p) && Reaches(Xor(x, y), Double(p))
    ensures Reaches(Xor(FeedBit(x, a), FeedBit(y, b)), p)
  {
    hide Xor, Shift, Double, Reaches, Halvable;
    ShiftIsLinear(Xor(x, AsWord(a)), Xor(y, AsWord(b)));
    MixedPairs(x, y, a, b);
    HighestFalls(Xor(x, y), a != b, p);
  }

  lemma MixedPairs(x: Word, y: Word, a: bool, b: bool)
    ensures Xor(Xor(x, AsWord(a)), Xor(y, AsWord(b))) == Xor(Xor(x, y), AsWord(a != b))
  {
    hide Xor;
    var v, w := AsWord(a), AsWord(b);
    XorLaws(x, y, v);
    XorLaws(Xor(x, v), y, w);
    XorLaws(Xor(x, y), v, w);
    XorLaws(v, w, 0);
  }

  /** Whether the difference of two registers lasts for n more steps. */
  predicate Lasts(x: Word, y: Word, n: nat) { Reaches(Xor(x, y), Power(n)) }

  lemma LastsOneStep(x: Word, y: Word, a: bool, b: bool, n: nat)
    requires n < 15 && Lasts(x, y, n + 1)
    ensures Lasts(FeedBit(x, a), FeedBit(y, b), n)
  {
    hide Xor, FeedBit, Double, Power, Reaches, Halvable;
    PowerDoubles(n);
    DifferenceFalls(x, y, a, b, Power(n));
  }

  lemma PowerDoubles(n: nat)
    requires n < 15
    ensures Halvable(Power(n)) && Power(n + 1) == Double(Power(n))
  {
    hide Double;
    Powers(n);
  }

  lemma LastingIsDifferent(x: Word, y: Word)
    requires Lasts(x, y, 0)
    ensures x != y
  {
    hide Xor;
    XorLaws(x, x, 0);
  }

  lemma {:induction false} DifferenceLasts(x: Word, y: Word, a: Bits, b: Bits)
    requires |a| == |b| <= 15 && Lasts(x, y, |a|)
    ensures Feed(x, a) != Feed(y, b)
    decreases |a|
  {
    hide Lasts, FeedBit;
    if a == [] {
      LastingIsDifferent(x, y);
    } else {
      LastsOneStep(x, y, a[0], b[0], |a| - 1);
      DifferenceLasts(FeedBit(x, a[0]), FeedBit(y, b[0]), a[1..], b[1..]);
    }
  }

  lemma FirstDifference(x: Word, a: bool, b: bool)
    requires a != b
    ensures forall n: nat | n <= 15 :: Lasts(FeedBit(x, a), FeedBit(x, b), n)
  {
    hide Xor, Shift;
    ShiftIsLinear(Xor(x, AsWord(a)), Xor(x, AsWord(b)));
    MixedPairs(x, x, a, b);
    XorLaws(x, 1, 0);
    XorLaws(1, 0, 0);
    ShiftedOne();
    forall n: nat | n <= 15 ensures Lasts(FeedBit(x, a), FeedBit(x, b), n) {
      Powers(n);
    }
  }

  lemma ShiftedOne()
    ensures Shift(1) == POLYNOMIAL
  {
  }

  /** Any two different strings of at most sixteen bits leave the register different. */
  lemma {:induction false} ShortStringsDiffer(x: Word, a: Bits, b: Bits)
    requires |a| == |b| <= 16 && a != b
    ensures Feed(x, a) != Feed(x, b)
    decreases |a|
  {
    hide FeedBit, Lasts;
    if a[0] == b[0] {
      assert a == [a[0]] + a[1..] && b == [b[0]] + b[1..];
      ShortStringsDiffer(FeedBit(x, a[0]), a[1..], b[1..]);
    } else {
      FirstDifference(x, a[0], b[0]);
      DifferenceLasts(FeedBit(x, a[0]), FeedBit(x, b[0]), a[1..], b[1..]);
    }
  }

  /** The two strings are different, but not outside of sixteen consecutive bits. */
  ghost predicate Burst(a: Bits, b: Bits, at: nat) {
    && |a| == |b| && a != b
    && forall i | 0 <= i < |a| && !(at <= i < at + 16) :: a[i] == b[i]
  }

  lemma BurstChangesRegister(x: Word, a: Bits, b: Bits, at: nat)
    requires Burst(a, b, at)
    ensures Feed(x, a) != Feed(x, b)
  {
    hide Feed;
    var from := if at < |a| then at else |a|;
    var to := if from + 16 < |a| then from + 16 else |a|;
    var front, back := a[..from], a[to..];
    assert b[..from] == front && b[to..] == back;
    assert a == front + (a[from..to] + back) && b == front + (b[from..to] + back);
    FeedConcat(x, front, a[from..to] + back);
    FeedConcat(x, front, b[from..to] + back);
    var y := Feed(x, front);
    FeedConcat(y, a[from..to], back);
    FeedConcat(y, b[from..to], back);
    ShortStringsDiffer(y, a[from..to], b[from..to]);
    if Feed(x, a) == Feed(x, b) {
      FeedIsInjective(Feed(y, a[from..to]), Feed(y, b[from..to]), back);
    }
  }

  /** Data that differ in a burst have different CRCs. */
  lemma BurstChangesCrc(a: Bytes, b: Bytes, at: nat)
    requires Burst(AllBits(a), AllBits(b), at)
    ensures BitSerialCrc(a) != BitSerialCrc(b)
  {
    hide Feed, Burst, AllBits;
    BurstChangesRegister(INITIAL, AllBits(a), AllBits(b), at);
  }

  // ---------- Bytes ----------

  lemma {:induction false} AllBitsConcat(a: Bytes, b: Bytes)
    ensures AllBits(a + b) == AllBits(a) + AllBits(b)
  {
    hide LowBits;
    if a == [] {
      assert a + b == b;
    } else {
      var head, tail := LowBits(a[0] as Word, 8), AllBits(a[1..]);
      assert (a + b)[0] == a[0] && (a + b)[1..] == a[1..] + b;
      AllBitsConcat(a[1..], b);
      assert AllBits(a + b) == head + AllBits(a[1..] + b) && AllBits(a) == head + tail;
      hide AllBits;
    }
  }

  lemma {:induction false} LowBitsDetermine(v: Word, w: Word, n: nat)
    requires LowBits(v, n) == LowBits(w, n) && High(v, n) == High(w, n)
    ensures v == w
    decreases n
  {
    if n > 0 {
      assert LowBits(v, n)[0] == LowBits(w, n)[0];
      assert LowBits(v, n)[1..] == LowBits(Half(v), n - 1) && LowBits(w, n)[1..] == LowBits(Half(w), n - 1);
      hide LowBits;
      LowBitsDetermine(Half(v), Half(w), n - 1);
      hide High;
      HalfAndOddDetermine(v, w);
    }
  }

  lemma HalfAndOddDetermine(v: Word, w: Word)
    requires Half(v) == Half(w) && (Odd(v) <==> Odd(w))
    ensures v == w
  {
  }

  lemma ByteBitsDetermine(a: bv8, b: bv8)
    requires LowBits(a as Word, 8) == LowBits(b as Word, 8)
    ensures a == b
  {
    hide *;
    ByteIsSmall(a);
    ByteIsSmall(b);
    HighEight(a as Word);
    HighEight(b as Word);
    LowBitsDetermine(a as Word, b as Word, 8);
  }

  lemma {:induction false} AllBitsDetermine(a: Bytes, b: Bytes)
    requires |a| == |b| && AllBits(a) == AllBits(b)
    ensures a == b
    decreases |a|
  {
    hide LowBits;
    if a != [] {
      assert AllBits(a)[..8] == LowBits(a[0] as Word, 8) && AllBits(a)[8..] == AllBits(a[1..]);
      assert AllBits(b)[..8] == LowBits(b[0] as Word, 8) && AllBits(b)[8..] == AllBits(b[1..]);
      ByteBitsDetermine(a[0], b[0]);
      AllBitsDetermine(a[1..], b[1..]);
      assert a == [a[0]] + a[1..] && b == [b[0]] + b[1..];
    }
  }

  /** Any change to two adjacent bytes changes the CRC. */
  lemma TwoBytesChangeCrc(front: Bytes, a: Bytes, b: Bytes, back: Bytes)
    requires |a| == |b| <= 2 && a != b
    ensures BitSerialCrc(front + a + back) != BitSerialCrc(front + b + back)
  {
    hide Feed, AllBits;
    var x, y := AllBits(front + a + back), AllBits(front + b + back);
    var at := |AllBits(front)|;
    AllBitsConcat(front + a, back);
    AllBitsConcat(front, a);
    AllBitsConcat(front + b, back);
    AllBitsConcat(front, b);
    if AllBits(a) == AllBits(b) {
      AllBitsDetermine(a, b);
    }
    assert x[at..][..|AllBits(a)|] == AllBits(a) && y[at..][..|AllBits(a)|] == AllBits(b);
    assert Burst(x, y, at);
    BurstChangesRegister(INITIAL, x, y, at);
  }

  // ---------- Blocks that end with their CRC ----------

  /** The little-endian word at the end of a block. */
  function Stored(block: Bytes): Word
    requires |block| >= 2
  {
    Join(block[|block| - 2] as Word, block[|block| - 1] as Word)
  }

  /** `ValidateCalibrationCrc16`. */
  method ValidateCalibrationCrc16(block: Bytes) returns (ok: bool)
    requires |block| >= 2
    ensures ok <==> BitSerialCrc(block) == 0
  {
    hide BitSerialCrc, Stored;
    var crc := GetCrc16(block[..|block| - 2]);
    ok := crc == Stored(block);
    MatchesExactlyWhenZero(block);
  }

  /** The stored CRC matches exactly when running over it as well leaves zero. */
  lemma MatchesExactlyWhenZero(block: Bytes)
    requires |block| >= 2
    ensures BitSerialCrc(block[..|block| - 2]) == Stored(block) <==> BitSerialCrc(block) == 0
  {
    hide Feed, AllBits, LowBits, Stored;
    var front, v := block[..|block| - 2], Stored(block);
    BlockBits(block);
    FeedConcat(INITIAL, AllBits(front), LowBits(v, 16));
    FeedOwnBits(BitSerialCrc(front), v);
  }

  lemma BlockBits(block: Bytes)
    requires |block| >= 2
    ensures AllBits(block) == AllBits(block[..|block| - 2]) + LowBits(Stored(block), 16)
  {
    var front, lo, hi := block[..|block| - 2], block[|block| - 2], block[|block| - 1];
    assert Stored(block) == Join(lo as Word, hi as Word) by { hide Join; }
    hide *;
    LastTwo(block);
    AllBitsConcat(front, [lo] + [hi]);
    AllBitsConcat([lo], [hi]);
    OneByteBits(lo);
    OneByteBits(hi);
    StoredBits(lo, hi);
  }

  lemma LastTwo<T>(s: seq<T>)
    requires |s| >= 2
    ensures s == s[..|s| - 2] + ([s[|s| - 2]] + [s[|s| - 1]])
  {
  }

  lemma OneByteBits(d: bv8)
    ensures AllBits([d]) == LowBits(d as Word, 8)
  {
    hide LowBits;
    assert AllBits([d][1..]) == [];
  }

  lemma StoredBits(lo: bv8, hi: bv8)
    ensures LowBits(Join(lo as Word, hi as Word), 16) == LowBits(lo as Word, 8) + LowBits(hi as Word, 8)
  {
    hide *;
    var v, w := Join(lo as Word, hi as Word), lo as Word;
    WordFromBytes(lo, hi);
    LowBitsTwice(v, 8, 8);
    HighEight(v);
    LowBitsTwice(v, 4, 4);
    LowBitsTwice(w, 4, 4);
    HighFour(v);
    HighFour(w);
    NibbleBits(v);
    NibbleBits(w);
    NibbleBits(AboveNibble(v));
    NibbleBits(AboveNibble(w));
  }

  lemma WordFromBytes(lo: bv8, hi: bv8)
    ensures var v, w := Join(lo as Word, hi as Word), lo as Word;
            && AboveByte(v) == hi as Word
            && LowNibble(v) == LowNibble(w) && LowNibble(AboveNibble(v)) == LowNibble(AboveNibble(w))
  {
  }

  lemma {:induction false} LowBitsTwice(v: Word, m: nat, n: nat)
    ensures LowBits(v, m + n) == LowBits(v, m) + LowBits(High(v, m), n)
    decreases m
  {
    hide Half, Odd;
    if m > 0 { LowBitsTwice(Half(v), m - 1, n); }
  }

  /** A register that is fed a word ends at zero exactly when it held that word. */
  lemma FeedOwnBits(crc: Word, v: Word)
    ensures Feed(crc, LowBits(v, 16)) == 0 <==> crc == v
  {
    hide *;
    ShiftsAbsorb(crc, v, 16);
    HighTwice(v, 8, 8);
    HighEight(v);
    HighEight(AboveByte(v));
    TwoBytesAbove(v);
    var end := Feed(crc, LowBits(v, 16));
    XorLaws(end, 0, 0);
    ShiftsFromZero(Xor(crc, v), 16);
    XorLaws(crc, v, 0);
    XorLaws(v, 0, 0);
  }

  lemma TwoBytesAbove(v: Word)
    ensures AboveByte(AboveByte(v)) == 0
  {
  }

  lemma {:induction false} ShiftsFromZero(v: Word, n: nat)
    ensures Shifts(v, n) == 0 <==> v == 0
    decreases n
  {
    if n > 0 {
      ShiftsFromZero(Shift(v), n - 1);
      ShiftOfZero(v);
      hide Shift;
    }
  }

  lemma ShiftOfZero(v: Word)
    ensures Shift(v) == 0 <==> v == 0
  {
  }

  /** No burst turns a block that validates into another that does, even where it hits the stored CRC. */
  lemma BurstInvalidatesBlock(a: Bytes, b: Bytes, at: nat)
    requires |a| >= 2 && |b| >= 2 && Burst(AllBits(a), AllBits(b), at)
    requires BitSerialCrc(a[..|a| - 2]) == Stored(a)
    ensures BitSerialCrc(b[..|b| - 2]) != Stored(b)
  {
    hide *;
    MatchesExactlyWhenZero(a);
    MatchesExactlyWhenZero(b);
    BurstChangesCrc(a, b, at);
  }
}
