/** The random byte commands of the spl service, on top of its generator. */
module RandomService {
  import opened MachineInts
  import opened CtrDrbgSpec
  import opened CtrDrbg

  /** What the secure monitor answers when it is asked for a seed. */
  datatype Entropy = Fresh(seed: Seed) | Refused(code: int)

  datatype Outcome = Success | Failure(code: int)

  /** The state from which a request is served: a due reseed happens first. */
  function Ready(cipher: Cipher, st: State, seed: Seed): (r: State)
    ensures r.reseedCounter <= RESEED_INTERVAL
  {
    if st.reseedCounter <= RESEED_INTERVAL then st else CtrDrbgSpec.Reseed(cipher, seed, st)
  }

  /** The state after reseeding with the seeds `first <= i < last` in turn. */
  function Reseeds(cipher: Cipher, st: State, entropy: nat -> Entropy, first: nat, last: nat): State
    requires first <= last && forall i | first <= i < last :: entropy(i).Fresh?
    decreases last - first
  {
    if first == last then st
    else CtrDrbgSpec.Reseed(cipher, entropy(last - 1).seed, Reseeds(cipher, st, entropy, first, last - 1))
  }

  /** One attempt, a reseed and a second attempt whose outcome is not looked at. */
  method GenerateRandomBytesInternal(g: Generator, out: array<byte>, at: nat, size: nat, entropy: Entropy)
    returns (outcome: Outcome)
    requires g.Valid() && g.Foreign(out) && (size <= MAX_REQUEST_SIZE ==> at + size <= out.Length)
    modifies g`cipherKey, g`reseedCounter, g.counter, g.key, g.work0, g.work1, out
    ensures outcome == (if old(g.Serves(size)) || entropy.Fresh? then Success else Failure(entropy.code))
    ensures outcome.Failure? ==> g.AsState() == old(g.AsState()) && out[..] == old(out[..])
    ensures outcome.Success? && size > MAX_REQUEST_SIZE ==>
              && g.AsState() == CtrDrbgSpec.Reseed(g.cipher, entropy.seed, old(g.AsState()))
              && out[..] == old(out[..])
    ensures outcome.Success? && size <= MAX_REQUEST_SIZE ==>
              var st := Ready(g.cipher, old(g.AsState()), if entropy.Fresh? then entropy.seed else ZeroSeed());
              && g.AsState() == AfterGenerate(g.cipher, st, size)
              && out[..] == Spliced(old(out[..]), at, Output(g.cipher, st, size))
  {
    hide AfterGenerate, Output, Spliced, Instantiate;
    var served := g.GenerateRandomBytes(out, at, size);
    if !served {
      if entropy.Refused? {
        return Failure(entropy.code);
      }
      var seed := new byte[SEED_SIZE](i requires 0 <= i < SEED_SIZE => entropy.seed[i]);
      assert seed[..] == entropy.seed;
      g.Reseed(seed);
      var _ := g.GenerateRandomBytes(out, at, size);
    }
    return Success;
  }

  /** The command: a loop over pieces of at most 0x10000 bytes, but every piece asks for `size` bytes.
      A request that fits one piece is served from one generator call; a longer one reseeds the generator
      once a piece and reports success with the caller's buffer as it was. */
  method GenerateRandomBytes(g: Generator, out: array<byte>, size: nat, entropy: nat -> Entropy)
    returns (outcome: Outcome)
    requires g.Valid() && g.Foreign(out) && size == out.Length
    modifies g`cipherKey, g`reseedCounter, g.counter, g.key, g.work0, g.work1, out
    ensures 0 < size <= MAX_REQUEST_SIZE && outcome.Success? ==>
              var seed := if entropy(0).Fresh? then entropy(0).seed else ZeroSeed();
              var st := Ready(g.cipher, old(g.AsState()), seed);
              out[..] == Output(g.cipher, st, size) && g.AsState() == AfterGenerate(g.cipher, st, size)
    ensures size == 0 ==> outcome.Success? && g.AsState() == old(g.AsState())
    ensures size > MAX_REQUEST_SIZE || outcome.Failure? ==> out[..] == old(out[..])
    ensures outcome.Failure? ==> exists i :: 0 <= i < Pieces(size) && entropy(i) == Refused(outcome.code)
    ensures size > MAX_REQUEST_SIZE && outcome.Success? ==>
              && (forall i | 0 <= i < Pieces(size) :: entropy(i).Fresh?)
              && g.AsState() == Reseeds(g.cipher, old(g.AsState()), entropy, 0, Pieces(size))
  {
    hide AfterGenerate, Output, Ready, CtrDrbgSpec.Reseed;
    var offset: nat, i: nat := 0, 0;
    while offset < size
      invariant offset == i * MAX_REQUEST_SIZE && i <= Pieces(size)
      invariant size > MAX_REQUEST_SIZE || i == 0 ==> out[..] == old(out[..])
      invariant i == 0 ==> g.AsState() == old(g.AsState())
      invariant size > MAX_REQUEST_SIZE ==> forall k | 0 <= k < i :: entropy(k).Fresh?
      invariant size > MAX_REQUEST_SIZE ==>
                  g.AsState() == Reseeds(g.cipher, old(g.AsState()), entropy, 0, i)
      invariant size <= MAX_REQUEST_SIZE && i == 1 ==>
                  var seed := if entropy(0).Fresh? then entropy(0).seed else ZeroSeed();
                  var st := Ready(g.cipher, old(g.AsState()), seed);
                  out[..] == Output(g.cipher, st, size) && g.AsState() == AfterGenerate(g.cipher, st, size)
    {
      var piece := GenerateRandomBytesInternal(g, out, offset, size, entropy(i));
      if piece.Failure? {
        return piece;
      }
      offset, i := offset + MAX_REQUEST_SIZE, i + 1;
    }
    return Success;
  }

  function Pieces(size: nat): nat { (size + MAX_REQUEST_SIZE - 1) / MAX_REQUEST_SIZE }
}
