/** CTR_DRBG with AES-128 and no derivation function, as section 10.2.1 of NIST SP 800-90A Rev. 1
    defines it; the block cipher is left uninterpreted. */
module CtrDrbgSpec {
  import opened MachineInts
  import opened Numerals

  const BLOCK_SIZE := 16
  const SEED_SIZE := 32
  const MAX_REQUEST_SIZE := 0x1_0000
  const RESEED_INTERVAL := 0x7FFF_FFF0
  const COUNTER_MODULUS := 0x1_0000_0000_0000_0000_0000_0000_0000_0000

  type Block = s: seq<byte> | |s| == BLOCK_SIZE witness seq(BLOCK_SIZE, _ => 0)
  type Seed = s: seq<byte> | |s| == SEED_SIZE witness seq(SEED_SIZE, _ => 0)

  /** The block cipher: key, then plaintext. */
  type Cipher = (Block, Block) -> Block

  function ZeroBlock(): Block { seq(BLOCK_SIZE, _ => 0) }

  function ZeroSeed(): Seed { seq(SEED_SIZE, _ => 0) }

  // ---------- Counters ----------

  lemma BlockModulus()
    ensures Pow256(16) == COUNTER_MODULUS && Pow256(8) == 0x1_0000_0000_0000_0000
  {
    assert Pow256(4) == 0x1_0000_0000 by {
      assert Pow256(1) == 0x100 * Pow256(0) && Pow256(2) == 0x100 * Pow256(1);
      assert Pow256(3) == 0x100 * Pow256(2) && Pow256(4) == 0x100 * Pow256(3);
    }
    assert Pow256(8) == 0x1_0000_0000 * 0x1_0000_0000 by {
      assert Pow256(5) == 0x100 * Pow256(4) && Pow256(6) == 0x100 * Pow256(5);
      assert Pow256(7) == 0x100 * Pow256(6) && Pow256(8) == 0x100 * Pow256(7);
    }
    assert Pow256(12) == 0x1_0000_0000 * Pow256(8) by {
      assert Pow256(9) == 0x100 * Pow256(8) && Pow256(10) == 0x100 * Pow256(9);
      assert Pow256(11) == 0x100 * Pow256(10) && Pow256(12) == 0x100 * Pow256(11);
    }
    assert Pow256(16) == 0x1_0000_0000 * Pow256(12) by {
      assert Pow256(13) == 0x100 * Pow256(12) && Pow256(14) == 0x100 * Pow256(13);
      assert Pow256(15) == 0x100 * Pow256(14) && Pow256(16) == 0x100 * Pow256(15);
    }
  }

  // ---------- The algorithms ----------

  /** The working state: Key, V as an integer, and the reseed counter. */
  datatype State = State(key: Block, v: nat, reseedCounter: nat)

  function WithCounter(st: State, reseedCounter: nat): State { State.State(st.key, st.v, reseedCounter) }

  /** V + k modulo 2^128. */
  function Advance(v: nat, k: nat): (r: nat)
    ensures r < COUNTER_MODULUS
  {
    (v + k) % COUNTER_MODULUS
  }

  /** The counter block that is encrypted for the k-th block of output, counting from 1. */
  function CounterBlock(v: nat, k: nat): Block { ToBigEndian(Advance(v, k), BLOCK_SIZE) }

  /** `n` blocks of key stream after V. */
  function KeyStream(cipher: Cipher, key: Block, v: nat, n: nat): (s: seq<byte>)
    ensures |s| == n * BLOCK_SIZE
  {
    if n == 0 then [] else KeyStream(cipher, key, v, n - 1) + cipher(key, CounterBlock(v, n))
  }

  /** Exclusive or of the lowest bits: one if their sum is odd. */
  function XorBit(a: nat, b: nat): (r: nat)
    ensures r < 2
  {
    (a + b) % 2
  }

  /** Exclusive or of the n low bits. */
  function XorLow(a: nat, b: nat, n: nat): (r: nat)
    ensures r < Pow2(n)
  {
    if n == 0 then 0 else 2 * XorLow(a / 2, b / 2, n - 1) + XorBit(a, b)
  }

  function XorByte(a: byte, b: byte): byte {
    EightBits();
    XorLow(a, b, 8)
  }

  function Xor(a: seq<byte>, b: seq<byte>): (s: seq<byte>)
    requires |a| == |b|
    ensures |s| == |a|
  {
    seq(|a|, i requires 0 <= i < |a| => XorByte(a[i], b[i]))
  }

  /** CTR_DRBG_Update, section 10.2.1.2. */
  function Update(cipher: Cipher, provided: Seed, st: State): State {
    var temp := Xor(KeyStream(cipher, st.key, st.v, 2), provided);
    State.State(temp[..BLOCK_SIZE], BigEndian(temp[BLOCK_SIZE..]), st.reseedCounter)
  }

  /** CTR_DRBG_Instantiate, section 10.2.1.3.1, with the seed material already combined. */
  function Instantiate(cipher: Cipher, seed: Seed): State {
    WithCounter(Update(cipher, seed, State.State(ZeroBlock(), 0, 0)), 1)
  }

  /** CTR_DRBG_Reseed, section 10.2.1.4.1. */
  function Reseed(cipher: Cipher, seed: Seed, st: State): State {
    WithCounter(Update(cipher, seed, st), 1)
  }

  function BlocksFor(size: nat): nat { (size + BLOCK_SIZE - 1) / BLOCK_SIZE }

  /** The bytes of CTR_DRBG_Generate, section 10.2.1.5.1. */
  function Output(cipher: Cipher, st: State, size: nat): (s: seq<byte>)
    ensures |s| == size
  {
    KeyStream(cipher, st.key, st.v, BlocksFor(size))[..size]
  }

  /** The state after CTR_DRBG_Generate without additional input. */
  function AfterGenerate(cipher: Cipher, st: State, size: nat): State {
    var advanced := State.State(st.key, Advance(st.v, BlocksFor(size)), st.reseedCounter);
    WithCounter(Update(cipher, ZeroSeed(), advanced), st.reseedCounter + 1)
  }

  // ---------- Properties ----------

  lemma AdvanceTwice(v: nat, j: nat, k: nat)
    ensures Advance(Advance(v, j), k) == Advance(v, j + k)
  {
    var q := (v + j) / COUNTER_MODULUS;
    assert v + j + k == q * COUNTER_MODULUS + (Advance(v, j) + k);
  }

  /** No counter block repeats until V has gone all the way round. */
  lemma CounterBlocksDiffer(v: nat, j: nat, k: nat)
    requires j < k < j + COUNTER_MODULUS
    ensures CounterBlock(v, j) != CounterBlock(v, k)
  {
    BlockModulus();
    FromTo(Advance(v, j), BLOCK_SIZE);
    FromTo(Advance(v, k), BLOCK_SIZE);
    AdvanceTwice(v, j, k - j);
    StepsApart(Advance(v, j), k - j);
  }

  lemma StepsApart(v: nat, d: nat)
    requires v < COUNTER_MODULUS && 0 < d < COUNTER_MODULUS
    ensures Advance(v, d) != v
  {
  }

  /** All counter blocks that one request encrypts under its key, those of the final update included,
      are different. */
  lemma RequestUsesDistinctBlocks(v: nat, size: nat, j: nat, k: nat)
    requires size <= MAX_REQUEST_SIZE && 1 <= j < k <= BlocksFor(size) + 2
    ensures CounterBlock(v, j) != CounterBlock(v, k)
  {
    CounterBlocksDiffer(v, j, k);
  }

  lemma {:induction false} StreamSplits(cipher: Cipher, key: Block, v: nat, j: nat, k: nat)
    ensures KeyStream(cipher, key, v, j + k)
         == KeyStream(cipher, key, v, j) + KeyStream(cipher, key, Advance(v, j), k)
  {
    hide Advance;
    if k > 0 {
      StreamSplits(cipher, key, v, j, k - 1);
      AdvanceTwice(v, j, k);
      assert CounterBlock(Advance(v, j), k) == CounterBlock(v, j + k);
    }
  }

  lemma {:induction false} StreamPrefix(cipher: Cipher, key: Block, v: nat, n: nat, m: nat)
    requires n <= m
    ensures KeyStream(cipher, key, v, n) <= KeyStream(cipher, key, v, m)
  {
    if n < m { StreamPrefix(cipher, key, v, n, m - 1); }
  }

  /** A shorter request from the same state gets a prefix of the longer one's bytes. */
  lemma OutputPrefix(cipher: Cipher, st: State, short: nat, long: nat)
    requires short <= long
    ensures Output(cipher, st, short) <= Output(cipher, st, long)
  {
    StreamPrefix(cipher, st.key, st.v, BlocksFor(short), BlocksFor(long));
  }

  // ---------- The state byte by byte ----------

  lemma {:induction false} XorLowTwice(a: nat, b: nat, n: nat)
    requires a < Pow2(n)
    ensures XorLow(XorLow(a, b, n), b, n) == a
  {
    if n > 0 {
      var rest, bit := XorLow(a / 2, b / 2, n - 1), XorBit(a, b);
      HalfBelow(a, n);
      XorLowTwice(a / 2, b / 2, n - 1);
      XorStep(a, b, n);
      XorStep(2 * rest + bit, b, n);
      hide XorLow, Pow2;
      BitTwice(a, b, rest);
    }
  }

  lemma BitTwice(a: nat, b: nat, rest: nat)
    ensures var x := 2 * rest + XorBit(a, b); x / 2 == rest && 2 * (a / 2) + XorBit(x, b) == a
  {
  }

  lemma {:induction false} XorLowCommutes(a: nat, b: nat, n: nat)
    ensures XorLow(a, b, n) == XorLow(b, a, n)
  {
    if n > 0 { XorLowCommutes(a / 2, b / 2, n - 1); }
  }

  lemma {:induction false} XorLowZero(a: nat, n: nat)
    requires a < Pow2(n)
    ensures XorLow(a, 0, n) == a
  {
    if n > 0 {
      HalfBelow(a, n);
      XorLowZero(a / 2, n - 1);
      XorStep(a, 0, n);
      hide XorLow, Pow2;
      assert 0 / 2 == 0;
    }
  }

  lemma HalfBelow(a: nat, n: nat)
    requires n > 0 && a < Pow2(n)
    ensures a / 2 < Pow2(n - 1)
  {
  }

  lemma XorStep(a: nat, b: nat, n: nat)
    requires n > 0
    ensures XorLow(a, b, n) == 2 * XorLow(a / 2, b / 2, n - 1) + XorBit(a, b)
  {
    hide XorBit;
  }

  lemma XorTwice(a: byte, b: byte)
    ensures XorByte(XorByte(a, b), b) == a
  {
    EightBits();
    hide XorLow;
    XorLowTwice(a, b, 8);
  }

  lemma EightBits()
    ensures Pow2(8) == 256
  {
    assert Pow2(8) == 2 * Pow2(7) && Pow2(7) == 2 * Pow2(6) && Pow2(6) == 2 * Pow2(5) && Pow2(5) == 2 * Pow2(4);
    assert Pow2(4) == 2 * Pow2(3) && Pow2(3) == 2 * Pow2(2) && Pow2(2) == 2 * Pow2(1) && Pow2(1) == 2 * Pow2(0);
  }

  lemma XorZero(a: byte)
    ensures XorByte(a, 0) == a
  {
    EightBits();
    hide XorLow;
    XorLowZero(a, 8);
  }

  lemma TwoBlocks(cipher: Cipher, key: Block, v: nat)
    ensures KeyStream(cipher, key, v, 2) == cipher(key, CounterBlock(v, 1)) + cipher(key, CounterBlock(v, 2))
  {
    hide CounterBlock;
    assert KeyStream(cipher, key, v, 1) == KeyStream(cipher, key, v, 0) + cipher(key, CounterBlock(v, 1));
    assert KeyStream(cipher, key, v, 0) == [];
  }

  /** After an update the new key and V, each xored with its half of the provided data, are the next two cipher
      blocks. */
  lemma UpdateIsTwoBlocks(cipher: Cipher, provided: Seed, st: State, i: nat)
    requires i < 16
    ensures var next := Update(cipher, provided, st);
            && XorByte(next.key[i], provided[i]) == cipher(st.key, ToBigEndian((st.v + 1) % COUNTER_MODULUS, 16))[i]
            && XorByte(ToBigEndian(next.v, 16)[i], provided[16 + i])
            == cipher(st.key, ToBigEndian((st.v + 2) % COUNTER_MODULUS, 16))[i]
            && next.reseedCounter == st.reseedCounter
  {
    UpdatedHalves(cipher, provided, st);
    TwoBlocks(cipher, st.key, st.v);
    CounterBlockIs(st.v, 1);
    CounterBlockIs(st.v, 2);
    hide KeyStream, ToBigEndian, XorByte, Xor, CounterBlock, Update;
    XorHalves(KeyStream(cipher, st.key, st.v, 2), provided, i);
  }

  lemma UpdatedHalves(cipher: Cipher, provided: Seed, st: State)
    ensures var next, temp := Update(cipher, provided, st), Xor(KeyStream(cipher, st.key, st.v, 2), provided);
            next.key == temp[..16] && ToBigEndian(next.v, 16) == temp[16..] && next.reseedCounter == st.reseedCounter
  {
    hide KeyStream, BigEndian, ToBigEndian, Xor;
    ToFrom(Xor(KeyStream(cipher, st.key, st.v, 2), provided)[BLOCK_SIZE..]);
  }

  lemma CounterBlockIs(v: nat, k: nat)
    ensures CounterBlock(v, k) == ToBigEndian((v + k) % COUNTER_MODULUS, 16)
  {
  }

  lemma XorHalves(stream: Seed, provided: Seed, i: nat)
    requires i < 16
    ensures XorByte(Xor(stream, provided)[..16][i], provided[i]) == stream[i]
    ensures XorByte(Xor(stream, provided)[16..][i], provided[16 + i]) == stream[16 + i]
  {
    hide XorByte;
    XorTwice(stream[i], provided[i]);
    XorTwice(stream[16 + i], provided[16 + i]);
  }

  /** So different provided data give different states. */
  lemma SeedsMatter(cipher: Cipher, a: Seed, b: Seed, st: State)
    requires Update(cipher, a, st) == Update(cipher, b, st)
    ensures a == b
  {
    hide Update, KeyStream, ToBigEndian;
    forall i | 0 <= i < 32 ensures a[i] == b[i] {
      if i < 16 { SameHalf(cipher, a, b, st, i); } else { SameHalf(cipher, a, b, st, i - 16); }
    }
  }

  lemma SameHalf(cipher: Cipher, a: Seed, b: Seed, st: State, i: nat)
    requires Update(cipher, a, st) == Update(cipher, b, st) && i < 16
    ensures a[i] == b[i] && a[16 + i] == b[16 + i]
  {
    hide Update, KeyStream, ToBigEndian, XorByte;
    UpdateIsTwoBlocks(cipher, a, st, i);
    UpdateIsTwoBlocks(cipher, b, st, i);
    var next := Update(cipher, a, st);
    XorCancels(next.key[i], a[i], b[i]);
    XorCancels(ToBigEndian(next.v, 16)[i], a[16 + i], b[16 + i]);
  }

  lemma XorCancels(x: byte, a: byte, b: byte)
    requires XorByte(x, a) == XorByte(x, b)
    ensures a == b
  {
    hide XorByte;
    XorCommutes(x, a);
    XorCommutes(x, b);
    XorTwice(a, x);
    XorTwice(b, x);
  }

  lemma XorCommutes(a: byte, b: byte)
    ensures XorByte(a, b) == XorByte(b, a)
  {
    EightBits();
    hide XorLow;
    XorLowCommutes(a, b, 8);
  }

  /** Byte i of the output is byte i mod 16 of the cipher block for the counter i / 16 + 1 steps on. */
  lemma {:induction false} StreamByte(cipher: Cipher, key: Block, v: nat, n: nat, i: nat)
    requires i < 16 * n
    ensures KeyStream(cipher, key, v, n)[i]
         == cipher(key, ToBigEndian((v + (i / 16 + 1)) % COUNTER_MODULUS, 16))[i % 16]
    decreases n
  {
    hide ToBigEndian;
    if i < 16 * (n - 1) {
      StreamByte(cipher, key, v, n - 1, i);
    } else {
      assert i / 16 == n - 1 && i % 16 == i - 16 * (n - 1);
    }
  }

  lemma OutputByte(cipher: Cipher, st: State, size: nat, i: nat)
    requires i < size
    ensures Output(cipher, st, size)[i]
         == cipher(st.key, ToBigEndian((st.v + (i / 16 + 1)) % COUNTER_MODULUS, 16))[i % 16]
  {
    hide KeyStream, ToBigEndian;
    assert size <= 16 * BlocksFor(size);
    StreamByte(cipher, st.key, st.v, BlocksFor(size), i);
  }

  /** The state after a request: the two cipher blocks behind those of the output, and one request more. */
  lemma AfterGenerateIs(cipher: Cipher, st: State, size: nat)
    ensures var n, next := (size + 15) / 16, AfterGenerate(cipher, st, size);
            && next.key == cipher(st.key, ToBigEndian((st.v + n + 1) % COUNTER_MODULUS, 16))
            && ToBigEndian(next.v, 16) == cipher(st.key, ToBigEndian((st.v + n + 2) % COUNTER_MODULUS, 16))
            && next.reseedCounter == st.reseedCounter + 1
  {
    hide KeyStream, ToBigEndian, Update, XorByte;
    var n := (size + 15) / 16;
    var advanced := State.State(st.key, Advance(st.v, n), st.reseedCounter);
    AdvanceTwice(st.v, n, 1);
    AdvanceTwice(st.v, n, 2);
    var next := Update(cipher, ZeroSeed(), advanced);
    forall i | 0 <= i < 16
      ensures next.key[i] == cipher(st.key, ToBigEndian((st.v + n + 1) % COUNTER_MODULUS, 16))[i]
      ensures ToBigEndian(next.v, 16)[i] == cipher(st.key, ToBigEndian((st.v + n + 2) % COUNTER_MODULUS, 16))[i]
    {
      UpdateIsTwoBlocks(cipher, ZeroSeed(), advanced, i);
      XorZero(next.key[i]);
      XorZero(ToBigEndian(next.v, 16)[i]);
    }
  }

  /** Instantiation starts from a zero key and a zero counter; it and reseeding set the request counter to one. */
  lemma InstantiateIs(cipher: Cipher, seed: Seed, st: State, i: nat)
    requires i < 16
    ensures var zero: Block := seq(16, _ => 0);
            var first, again := Instantiate(cipher, seed), Reseed(cipher, seed, st);
            && XorByte(first.key[i], seed[i]) == cipher(zero, ToBigEndian(1, 16))[i]
            && XorByte(ToBigEndian(first.v, 16)[i], seed[16 + i]) == cipher(zero, ToBigEndian(2, 16))[i]
            && XorByte(again.key[i], seed[i]) == cipher(st.key, ToBigEndian((st.v + 1) % COUNTER_MODULUS, 16))[i]
            && XorByte(ToBigEndian(again.v, 16)[i], seed[16 + i])
            == cipher(st.key, ToBigEndian((st.v + 2) % COUNTER_MODULUS, 16))[i]
            && first.reseedCounter == again.reseedCounter == 1
  {
    hide KeyStream, ToBigEndian, Update, XorByte;
    assert ZeroBlock() == seq(16, _ => 0);
    UpdateIsTwoBlocks(cipher, seed, State.State(ZeroBlock(), 0, 0), i);
    UpdateIsTwoBlocks(cipher, seed, st, i);
  }
}
