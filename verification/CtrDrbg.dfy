/** The random generator of the spl service, byte buffers and all. */
module CtrDrbg {
  import opened MachineInts
  import opened Buffers
  import opened Numerals
  import opened CtrDrbgSpec

  // ---------- The counter: two little-endian words holding big-endian digits ----------

  function Reverse(s: seq<byte>): (r: seq<byte>)
    ensures |r| == |s|
    ensures forall i | 0 <= i < |s| :: r[i] == s[|s| - 1 - i]
  {
    seq(|s|, i requires 0 <= i < |s| => s[|s| - 1 - i])
  }

  lemma ReverseTwice(s: seq<byte>)
    ensures Reverse(Reverse(s)) == s
  {
  }

  /** The value of a 64-bit load from eight bytes on the little-endian processor. */
  function Load64(s: seq<byte>): nat { BigEndian(Reverse(s)) }

  /** The bytes that a 64-bit store writes. */
  function Store64(v: nat): (s: seq<byte>)
    ensures |s| == 8
  {
    Reverse(ToBigEndian(v, 8))
  }

  /** `__builtin_bswap64`. */
  function ByteSwap(v: nat): nat { BigEndian(Store64(v)) }

  lemma SwapLoad(s: seq<byte>)
    requires |s| == 8
    ensures ByteSwap(Load64(s)) == BigEndian(s)
  {
    ToFrom(Reverse(s));
    ReverseTwice(s);
  }

  lemma StoreSwap(v: nat)
    requires v < Pow256(8)
    ensures Store64(ByteSwap(v)) == ToBigEndian(v, 8)
  {
    ToFrom(Store64(v));
    ReverseTwice(ToBigEndian(v, 8));
  }

  lemma {:induction false} ZeroDigits(n: nat)
    ensures BigEndian(ToBigEndian(0, n)) == 0 && forall i | 0 <= i < n :: ToBigEndian(0, n)[i] == 0
  {
    if n > 0 {
      ZeroDigits(n - 1);
      assert ToBigEndian(0, n)[..n - 1] == ToBigEndian(0, n - 1);
    }
  }

  lemma SwapIsZero(v: nat)
    requires v < Pow256(8)
    ensures ByteSwap(v) == 0 <==> v == 0
  {
    ZeroDigits(8);
    if v == 0 {
      assert Store64(0) == ToBigEndian(0, 8);
    }
    if ByteSwap(v) == 0 {
      StoreSwap(v);
      assert Store64(0) == ToBigEndian(0, 8);
      FromTo(v, 8);
    }
  }

  lemma {:induction false} BigEndianConcat(a: seq<byte>, b: seq<byte>)
    ensures BigEndian(a + b) == BigEndian(a) * Pow256(|b|) + BigEndian(b)
  {
    if b == [] {
      assert a + b == a;
    } else {
      var front, last := b[..|b| - 1], b[|b| - 1];
      assert (a + b)[..|a + b| - 1] == a + front;
      BigEndianConcat(a, front);
      assert BigEndian(a) * Pow256(|front|) * 0x100 == BigEndian(a) * Pow256(|b|);
    }
  }

  const WORD_MODULUS := 0x1_0000_0000_0000_0000

  /** The next number below m. */
  function Bumped(x: nat, m: nat): nat
    requires m > 0
  {
    (x + 1) % m
  }

  /** A number of two words. */
  function Words(hi: nat, lo: nat): nat { hi * 0x1_0000_0000_0000_0000 + lo }

  /** Carrying into the upper word is adding one to the whole. */
  lemma CarryIntoUpperHalf(hi: nat, lo: nat)
    requires hi < WORD_MODULUS && lo < WORD_MODULUS
    ensures var lo' := Bumped(lo, WORD_MODULUS);
            var hi' := if lo' == 0 then Bumped(hi, WORD_MODULUS) else hi;
            Words(hi', lo') == Bumped(Words(hi, lo), COUNTER_MODULUS)
  {
    hide Bumped;
    BumpedIs(lo, WORD_MODULUS);
    BumpedIs(hi, WORD_MODULUS);
    BumpedIs(Words(hi, lo), COUNTER_MODULUS);
  }

  lemma BumpedIs(x: nat, m: nat)
    requires x < m
    ensures Bumped(x, m) == if x + 1 == m then 0 else x + 1
  {
    if x + 1 < m { SmallModulo(x + 1, m); }
  }

  lemma SmallModulo(x: nat, m: nat)
    requires x < m
    ensures x % m == x
  {
  }

  /** Adds one to the word of eight bytes at `at`. */
  method IncrementWord(ctr: array<byte>, at: nat) returns (word: nat)
    requires at + 8 <= ctr.Length
    modifies ctr
    ensures var v := Bumped(BigEndian(old(ctr[at..at + 8])), WORD_MODULUS);
            ctr[at..at + 8] == ToBigEndian(v, 8) && (word == 0 <==> v == 0)
    ensures ctr[..at] == old(ctr[..at]) && ctr[at + 8..] == old(ctr[at + 8..])
  {
    hide BigEndian, ToBigEndian, Store64, Load64, ByteSwap;
    BlockModulus();
    ToFrom(ctr[at..at + 8]);
    SwapLoad(ctr[at..at + 8]);
    ghost var v := Bumped(BigEndian(ctr[at..at + 8]), WORD_MODULUS);
    word := ByteSwap(Bumped(ByteSwap(Load64(ctr[at..at + 8])), WORD_MODULUS));
    StoreSwap(v);
    SwapIsZero(v);
    CopyInto(ctr, at, Store64(word));
  }

  /** The two-word increment is +1 modulo 2^128 on the big-endian counter. */
  method IncrementCounter(ctr: array<byte>)
    requires ctr.Length == BLOCK_SIZE
    modifies ctr
    ensures BigEndian(ctr[..]) == Advance(BigEndian(old(ctr[..])), 1)
  {
    hide BigEndian, ToBigEndian, Pow256;
    ghost var before := ctr[..];
    ghost var upper, lower := before[..8], before[8..];
    assert before[8..16] == lower;
    var low := IncrementWord(ctr, 8);
    ghost var middle := ctr[..];
    assert middle[..8] == ctr[..8] == upper && middle[0..8] == upper && middle[8..] == ctr[8..16];
    if low == 0 {
      var _ := IncrementWord(ctr, 0);
      assert ctr[..8] == ctr[0..8] && ctr[8..] == middle[8..];
    }
    assert ctr[..] == ctr[..8] + ctr[8..] && before == upper + lower;
    CounterOfWords(upper, lower, ctr[..8], ctr[8..]);
  }

  lemma CounterOfWords(upper: seq<byte>, lower: seq<byte>, upper': seq<byte>, lower': seq<byte>)
    requires |upper| == |lower| == 8
    requires lower' == ToBigEndian(Bumped(BigEndian(lower), WORD_MODULUS), 8)
    requires upper' == if Bumped(BigEndian(lower), WORD_MODULUS) == 0
                       then ToBigEndian(Bumped(BigEndian(upper), WORD_MODULUS), 8) else upper
    ensures BigEndian(upper' + lower') == Advance(BigEndian(upper + lower), 1)
  {
    hide BigEndian, ToBigEndian, Pow256, Bumped, Words, Advance;
    var hi, lo := BigEndian(upper), BigEndian(lower);
    WordsConcat(upper, lower);
    WordsConcat(upper', lower');
    BumpedIs(lo, WORD_MODULUS);
    BumpedIs(hi, WORD_MODULUS);
    WordRoundTrip(Bumped(lo, WORD_MODULUS));
    WordRoundTrip(Bumped(hi, WORD_MODULUS));
    CarryIntoUpperHalf(hi, lo);
    AdvanceOne(Words(hi, lo));
  }

  lemma AdvanceOne(x: nat)
    ensures Advance(x, 1) == Bumped(x, COUNTER_MODULUS)
  {
  }

  lemma WordsConcat(a: seq<byte>, b: seq<byte>)
    requires |a| == |b| == 8
    ensures BigEndian(a + b) == Words(BigEndian(a), BigEndian(b))
    ensures BigEndian(a) < WORD_MODULUS && BigEndian(b) < WORD_MODULUS
  {
    BlockModulus();
    hide BigEndian, ToBigEndian, Pow256;
    BigEndianConcat(a, b);
    ToFrom(a);
    ToFrom(b);
  }

  lemma WordRoundTrip(v: nat)
    requires v < WORD_MODULUS
    ensures BigEndian(ToBigEndian(v, 8)) == v
  {
    BlockModulus();
    hide BigEndian, ToBigEndian, Pow256;
    FromTo(v, 8);
  }

  /** `Xor` of one buffer into another. */
  method XorInto(dst: array<byte>, src: array<byte>)
    requires dst.Length == src.Length && dst != src
    modifies dst
    ensures dst[..] == Xor(old(dst[..]), src[..])
  {
    hide XorByte;
    for i := 0 to dst.Length
      invariant forall k | 0 <= k < i :: dst[k] == XorByte(old(dst[k]), src[k])
      invariant forall k | i <= k < dst.Length :: dst[k] == old(dst[k])
    {
      dst[i] := XorByte(dst[i], src[i]);
    }
  }

  // ---------- The generator ----------

  class Generator {
    const cipher: Cipher
    var cipherKey: Block
    const counter: array<byte>
    const key: array<byte>
    const work0: array<byte>
    const work1: array<byte>
    var reseedCounter: nat

    constructor (cipher: Cipher)
      ensures Valid() && this.cipher == cipher && fresh(counter) && fresh(key) && fresh(work0) && fresh(work1)
    {
      this.cipher := cipher;
      cipherKey := ZeroBlock();
      counter := new byte[BLOCK_SIZE](_ => 0);
      key := new byte[BLOCK_SIZE](_ => 0);
      work0 := new byte[SEED_SIZE](_ => 0);
      work1 := new byte[SEED_SIZE](_ => 0);
      reseedCounter := 0;
    }

    ghost predicate Valid()
    {
      && counter.Length == key.Length == BLOCK_SIZE && work0.Length == work1.Length == SEED_SIZE
      && counter != key && work0 != work1
      && counter != work0 && counter != work1 && key != work0 && key != work1
    }

    /** Whether a buffer is none of the generator's own. */
    ghost predicate Foreign(a: array<byte>)
    {
      a != counter && a != key && a != work0 && a != work1
    }

    ghost function AsState(): State
      requires Valid()
      reads this, counter, key
    {
      State.State(key[..], BigEndian(counter[..]), reseedCounter)
    }

    /** Increments the counter and encrypts it into 16 bytes of `dst`. */
    method NextBlock(dst: array<byte>, at: nat)
      requires Valid() && dst != counter && dst != key && at + BLOCK_SIZE <= dst.Length
      modifies counter, dst
      ensures BigEndian(counter[..]) == Advance(BigEndian(old(counter[..])), 1)
      ensures dst[..] == Spliced(old(dst[..]), at, cipher(cipherKey, CounterBlock(BigEndian(old(counter[..])), 1)))
    {
      hide BigEndian, Advance, Spliced, CounterBlock;
      ghost var v := BigEndian(counter[..]);
      IncrementCounter(counter);
      BlockOfCounter(counter[..], v);
      ghost var before, block := dst[..], cipher(cipherKey, counter[..]);
      CopyInto(dst, at, cipher(cipherKey, counter[..]));
      SplicedBySlices(before, dst[..], at, block);
    }

    /** `n` blocks of key stream. */
    method Blocks(dst: array<byte>, at: nat, n: nat)
      requires Valid() && dst != counter && dst != key && at + n * BLOCK_SIZE <= dst.Length
      modifies counter, dst
      ensures BigEndian(counter[..]) == Advance(BigEndian(old(counter[..])), n)
      ensures dst[..] == Spliced(old(dst[..]), at, KeyStream(cipher, cipherKey, BigEndian(old(counter[..])), n))
    {
      hide BigEndian, Advance, CounterBlock, KeyStream, Spliced;
      ghost var v, before := BigEndian(counter[..]), dst[..];
      NoAdvance(counter[..]);
      NoStream(cipher, cipherKey, v, before, at);
      var offset := 0;
      ghost var k := 0;
      while offset < n * BLOCK_SIZE
        invariant k <= n && offset == k * BLOCK_SIZE && dst.Length == |before|
        invariant BigEndian(counter[..]) == Advance(v, k)
        invariant dst[..] == Spliced(before, at, KeyStream(cipher, cipherKey, v, k))
      {
        NextBlock(dst, at + offset);
        NextCounter(v, k);
        StreamStep(cipher, cipherKey, v, k);
        SpliceTwice(before, at, KeyStream(cipher, cipherKey, v, k), cipher(cipherKey, CounterBlock(v, k + 1)));
        offset, k := offset + BLOCK_SIZE, k + 1;
      }
    }

    method Update(data: array<byte>)
      requires Valid() && data.Length == SEED_SIZE && data != counter && data != key && data != work1
      modifies this`cipherKey, counter, key, work1
      ensures AsState() == CtrDrbgSpec.Update(cipher, old(data[..]), old(AsState()))
    {
      hide BigEndian, Advance, KeyStream, XorByte;
      cipherKey := key[..];
      Blocks(work1, 0, 2);
      assert work1[..] == work1[..][0..0 + 2 * BLOCK_SIZE];
      XorInto(work1, data);
      CopyInto(key, 0, work1[..BLOCK_SIZE]);
      CopyInto(counter, 0, work1[BLOCK_SIZE..]);
      assert key[..] == key[0..0 + BLOCK_SIZE] && counter[..] == counter[0..0 + BLOCK_SIZE];
    }

    method Initialize(seed: array<byte>)
      requires Valid() && seed.Length == SEED_SIZE && Foreign(seed)
      modifies this`cipherKey, this`reseedCounter, counter, key, work0, work1
      ensures AsState() == Instantiate(cipher, old(seed[..]))
    {
      hide BigEndian, KeyStream, Xor;
      CopyInto(work0, 0, seed[..]);
      assert work0[..] == work0[0..0 + SEED_SIZE];
      CopyInto(key, 0, ZeroBlock());
      assert key[..] == key[0..0 + BLOCK_SIZE];
      CopyInto(counter, 0, ZeroBlock());
      assert counter[..] == counter[0..0 + BLOCK_SIZE];
      ZeroCounter();
      Update(work0);
      reseedCounter := 1;
    }

    method Reseed(seed: array<byte>)
      requires Valid() && seed.Length == SEED_SIZE && Foreign(seed)
      modifies this`cipherKey, this`reseedCounter, counter, key, work0, work1
      ensures AsState() == CtrDrbgSpec.Reseed(cipher, old(seed[..]), old(AsState()))
    {
      hide BigEndian, KeyStream, Xor;
      CopyInto(work0, 0, seed[..]);
      assert work0[..] == work0[0..0 + SEED_SIZE];
      Update(work0);
      reseedCounter := 1;
    }

    /** Whether a request is served; otherwise nothing changes. */
    predicate Serves(size: nat)
      reads this
    {
      size <= MAX_REQUEST_SIZE && reseedCounter <= RESEED_INTERVAL
    }

    method GenerateRandomBytes(out: array<byte>, at: nat, size: nat) returns (ok: bool)
      requires Valid() && Foreign(out) && (size <= MAX_REQUEST_SIZE ==> at + size <= out.Length)
      modifies this`cipherKey, this`reseedCounter, counter, key, work0, work1, out
      ensures ok == old(Serves(size))
      ensures !ok ==> AsState() == old(AsState()) && out[..] == old(out[..])
      ensures ok ==> AsState() == AfterGenerate(cipher, old(AsState()), size)
      ensures ok ==> out[..] == Spliced(old(out[..]), at, Output(cipher, old(AsState()), size))
    {
      hide BigEndian, KeyStream, CounterBlock, Advance, Xor, CtrDrbgSpec.Update;
      if size > MAX_REQUEST_SIZE {
        return false;
      }
      if reseedCounter > RESEED_INTERVAL {
        return false;
      }
      cipherKey := key[..];
      ghost var v := BigEndian(counter[..]);
      WriteOutput(out, at, size);
      CopyInto(work0, 0, ZeroSeed());
      assert work0[..] == work0[0..0 + SEED_SIZE];
      Update(work0);
      reseedCounter := reseedCounter + 1;
      return true;
    }

    /** The whole blocks go straight to `out`, a partial last one by way of `work1`. */
    method WriteOutput(out: array<byte>, at: nat, size: nat)
      requires Valid() && Foreign(out) && at + size <= out.Length
      modifies counter, work1, out
      ensures BigEndian(counter[..]) == Advance(BigEndian(old(counter[..])), BlocksFor(size))
      ensures out[..] == Spliced(old(out[..]), at,
                                 KeyStream(cipher, cipherKey, BigEndian(old(counter[..])), BlocksFor(size))[..size])
    {
      hide BigEndian, KeyStream, CounterBlock, Advance, Spliced, BlocksFor;
      ghost var v, before := BigEndian(counter[..]), out[..];
      var whole := size / BLOCK_SIZE;
      var alignedSize := whole * BLOCK_SIZE;
      Blocks(out, at, whole);
      ghost var stream := KeyStream(cipher, cipherKey, v, whole);
      if size > alignedSize {
        ghost var last := cipher(cipherKey, CounterBlock(v, whole + 1));
        NextCounter(v, whole);
        ghost var middle := out[..];
        NextBlock(work1, 0);
        var tail := work1[..size - alignedSize];
        SplicedPrefix(old(work1[..]), last, size - alignedSize);
        CopyInto(out, at + alignedSize, tail);
        SplicedBySlices(middle, out[..], at + alignedSize, tail);
        SpliceTwice(before, at, stream, tail);
      }
      CutStream(cipher, cipherKey, v, size);
    }
  }

  /** The key stream for a request, cut to size: whole blocks, and the start of one more if it is needed. */
  lemma CutStream(cipher: Cipher, key: Block, v: nat, size: nat)
    ensures var whole := size / BLOCK_SIZE;
            var rest := size - whole * BLOCK_SIZE;
            && rest < BLOCK_SIZE
            && BlocksFor(size) == (if rest > 0 then whole + 1 else whole)
            && KeyStream(cipher, key, v, BlocksFor(size))[..size]
            == KeyStream(cipher, key, v, whole) + cipher(key, CounterBlock(v, whole + 1))[..rest]
  {
    hide CounterBlock, KeyStream;
    var whole := size / BLOCK_SIZE;
    StreamStep(cipher, key, v, whole);
    var stream, last := KeyStream(cipher, key, v, whole), cipher(key, CounterBlock(v, whole + 1));
    var rest := size - whole * BLOCK_SIZE;
    assert (stream + last)[..size] == stream + last[..rest];
  }

  /** `s` with the bytes from `at` on replaced by `piece`. */
  function Spliced(s: seq<byte>, at: nat, piece: seq<byte>): (r: seq<byte>)
    requires at + |piece| <= |s|
    ensures |r| == |s| && r[at..at + |piece|] == piece
    ensures r[..at] == s[..at] && r[at + |piece|..] == s[at + |piece|..]
  {
    s[..at] + piece + s[at + |piece|..]
  }

  lemma SplicedBySlices(before: seq<byte>, after: seq<byte>, at: nat, piece: seq<byte>)
    requires |before| == |after| && at + |piece| <= |before|
    requires after[at..at + |piece|] == piece
    requires after[..at] == before[..at] && after[at + |piece|..] == before[at + |piece|..]
    ensures after == Spliced(before, at, piece)
  {
    assert after == after[..at] + after[at..at + |piece|] + after[at + |piece|..];
  }

  lemma SpliceTwice(s: seq<byte>, at: nat, first: seq<byte>, second: seq<byte>)
    requires at + |first| + |second| <= |s|
    ensures Spliced(Spliced(s, at, first), at + |first|, second) == Spliced(s, at, first + second)
  {
  }

  /** The counter's bytes are the counter block. */
  lemma BlockOfCounter(counter: seq<byte>, v: nat)
    requires |counter| == BLOCK_SIZE && BigEndian(counter) == Advance(v, 1)
    ensures counter == CounterBlock(v, 1)
  {
    ToFrom(counter);
    hide BigEndian, ToBigEndian, Advance;
  }

  lemma SplicedPrefix(s: seq<byte>, piece: seq<byte>, n: nat)
    requires n <= |piece| <= |s|
    ensures Spliced(s, 0, piece)[..n] == piece[..n]
  {
  }

  lemma NoStream(cipher: Cipher, key: Block, v: nat, s: seq<byte>, at: nat)
    requires at <= |s|
    ensures KeyStream(cipher, key, v, 0) == [] && Spliced(s, at, []) == s
  {
  }

  lemma StreamStep(cipher: Cipher, key: Block, v: nat, n: nat)
    ensures KeyStream(cipher, key, v, n + 1) == KeyStream(cipher, key, v, n) + cipher(key, CounterBlock(v, n + 1))
  {
  }

  lemma ZeroCounter()
    ensures BigEndian(ZeroBlock()) == 0
  {
    ZeroDigits(BLOCK_SIZE);
    assert ZeroBlock() == ToBigEndian(0, BLOCK_SIZE);
  }

  lemma NoAdvance(counter: seq<byte>)
    requires |counter| == BLOCK_SIZE
    ensures Advance(BigEndian(counter), 0) == BigEndian(counter)
  {
    ToFrom(counter);
    BlockModulus();
    hide BigEndian, ToBigEndian, Pow256;
  }

  lemma NextCounter(v: nat, k: nat)
    ensures Advance(Advance(v, k), 1) == Advance(v, k + 1)
    ensures CounterBlock(Advance(v, k), 1) == CounterBlock(v, k + 1)
  {
    AdvanceTwice(v, k, 1);
  }
}
