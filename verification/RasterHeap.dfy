/** The rasterizer's allocator for blocks of one size: chunks from the C heap, carved from the top down,
    and a free list threaded through the first word of every freed block. Memory is a map from addresses
    to the pointers stored there. */
module RasterHeap {

  type Address = nat

  const NULL: Address := 0

  /** A chunk starts with the pointer to the next chunk. */
  const HEADER_SIZE := 8

  const WORD_SIZE := 8

  type Memory = map<Address, Address>

  function ChunkCount(size: nat): (n: nat)
    ensures n > 0
  {
    if size < 32 then 2000 else if size < 128 then 800 else 100
  }

  function ChunkBytes(size: nat): nat { HEADER_SIZE + size * ChunkCount(size) }

  function BlockAt(chunk: Address, size: nat, k: nat): Address { chunk + HEADER_SIZE + size * k }

  predicate Apart(a: Address, n: nat, b: Address, m: nat) { a + n <= b || b + m <= a }

  // ---------- Linked lists ----------

  function At(s: seq<Address>, i: nat): Address { if i < |s| then s[i] else NULL }

  ghost predicate LinkAt(s: seq<Address>, i: nat, word: Memory)
    requires i < |s|
  {
    s[i] != NULL && s[i] in word && word[s[i]] == At(s, i + 1)
  }

  /** Following the pointers from `head` visits exactly `s` and ends at the null pointer. */
  ghost predicate Linked(s: seq<Address>, head: Address, word: Memory) {
    head == At(s, 0) && forall i | 0 <= i < |s| :: LinkAt(s, i, word)
  }

  ghost predicate Distinct(s: seq<Address>) {
    forall i, j | 0 <= i < j < |s| :: s[i] != s[j]
  }

  lemma LinkedFirst(s: seq<Address>, head: Address, word: Memory)
    requires Linked(s, head, word)
    ensures s == [] <==> head == NULL
    ensures s != [] ==> head == s[0] && head in word && Linked(s[1..], word[head], word)
  {
    if s != [] {
      assert LinkAt(s, 0, word);
      forall i | 0 <= i < |s| - 1 ensures LinkAt(s[1..], i, word) {
        assert LinkAt(s, i + 1, word);
      }
    }
  }

  lemma LinkedPush(s: seq<Address>, head: Address, word: Memory, p: Address)
    requires Linked(s, head, word) && p != NULL && p !in s
    ensures Linked([p] + s, p, word[p := head])
  {
    var t, word' := [p] + s, word[p := head];
    forall i | 0 <= i < |t| ensures LinkAt(t, i, word') {
      if i > 0 { assert LinkAt(s, i - 1, word); }
    }
  }

  lemma LinkedFrame(s: seq<Address>, head: Address, word: Memory, word': Memory)
    requires Linked(s, head, word)
    requires forall a | a in s && a in word :: a in word' && word'[a] == word[a]
    ensures Linked(s, head, word')
  {
    forall i | 0 <= i < |s| ensures LinkAt(s, i, word') {
      assert LinkAt(s, i, word);
    }
  }

  /** Writes outside the list leave it linked. */
  lemma LinkedElsewhere(s: seq<Address>, head: Address, word: Memory, p: Address, v: Address)
    requires Linked(s, head, word) && p !in s
    ensures Linked(s, head, word[p := v])
  {
    LinkedFrame(s, head, word, word[p := v]);
  }

  // ---------- What malloc promises ----------

  /** The regions that malloc returns are not null and do not overlap. */
  ghost predicate Separates(malloc: nat -> Address, bytes: nat) {
    && (forall i: nat :: malloc(i) != NULL)
    && (forall i: nat, j: nat | i != j :: Apart(malloc(i), bytes, malloc(j), bytes))
  }

  /** The results of the first n calls, latest first. */
  function Mallocs(malloc: nat -> Address, n: nat): (s: seq<Address>)
    ensures |s| == n
    ensures forall i | 0 <= i < n :: s[i] == malloc(n - 1 - i)
  {
    seq(n, i requires 0 <= i < n => malloc(n - 1 - i))
  }

  /** Whether `a` is a block that has been carved out of one of the chunks. */
  ghost predicate Carved(a: Address, chunks: seq<Address>, size: nat, remaining: nat) {
    exists i, k :: IsBlock(a, chunks, size, remaining, i, k)
  }

  ghost predicate IsBlock(a: Address, chunks: seq<Address>, size: nat, remaining: nat, i: nat, k: nat) {
    i < |chunks| && k < ChunkCount(size) && (i == 0 ==> remaining <= k) && a == BlockAt(chunks[i], size, k)
  }

  lemma BlockInChunk(chunk: Address, size: nat, k: nat)
    requires k < ChunkCount(size)
    ensures chunk + HEADER_SIZE <= BlockAt(chunk, size, k)
    ensures BlockAt(chunk, size, k) + size <= chunk + ChunkBytes(size)
  {
    assert size * k + size == size * (k + 1) <= size * ChunkCount(size);
  }

  lemma BlocksOfOneChunk(chunk: Address, size: nat, j: nat, k: nat)
    requires j < k
    ensures BlockAt(chunk, size, j) + size <= BlockAt(chunk, size, k)
  {
    assert size * j + size == size * (j + 1) <= size * k;
  }

  /** Two blocks are disjoint ranges of bytes. */
  lemma BlocksApart(malloc: nat -> Address, n: nat, size: nat, i: nat, j: nat, i': nat, j': nat)
    requires Separates(malloc, ChunkBytes(size))
    requires i < n && i' < n && j < ChunkCount(size) && j' < ChunkCount(size)
    requires i != i' || j != j'
    ensures Apart(BlockAt(Mallocs(malloc, n)[i], size, j), size, BlockAt(Mallocs(malloc, n)[i'], size, j'), size)
  {
    hide BlockAt, ChunkBytes;
    var chunks := Mallocs(malloc, n);
    BlockInChunk(chunks[i], size, j);
    BlockInChunk(chunks[i'], size, j');
    if i != i' {
      assert Apart(malloc(n - 1 - i), ChunkBytes(size), malloc(n - 1 - i'), ChunkBytes(size));
    } else if j < j' {
      BlocksOfOneChunk(chunks[i], size, j, j');
    } else {
      BlocksOfOneChunk(chunks[i], size, j', j);
    }
  }

  /** A carved block does not overlap a chunk header. */
  lemma BlockIsNoHeader(malloc: nat -> Address, n: nat, size: nat, remaining: nat, a: Address, c: nat)
    requires Separates(malloc, ChunkBytes(size)) && size > 0
    requires Carved(a, Mallocs(malloc, n), size, remaining) && c < n
    ensures Apart(a, size, Mallocs(malloc, n)[c], HEADER_SIZE)
  {
    hide BlockAt;
    var chunks := Mallocs(malloc, n);
    var i: nat, k: nat :| IsBlock(a, chunks, size, remaining, i, k);
    BlockInChunk(chunks[i], size, k);
    if i != c {
      assert Apart(malloc(n - 1 - i), ChunkBytes(size), malloc(n - 1 - c), ChunkBytes(size));
    }
  }

  lemma CarvedIsNotNull(a: Address, chunks: seq<Address>, size: nat, remaining: nat)
    requires Carved(a, chunks, size, remaining)
    ensures a != NULL
  {
    var i: nat, k: nat :| IsBlock(a, chunks, size, remaining, i, k);
    BlockInChunk(chunks[i], size, k);
  }

  /** Carving one more block, from a head chunk that has some left: the block is new. */
  lemma CarveNext(malloc: nat -> Address, n: nat, size: nat, remaining: nat)
    requires Separates(malloc, ChunkBytes(size)) && size > 0 && n > 0 && 0 < remaining <= ChunkCount(size)
    ensures var chunks := Mallocs(malloc, n);
            var p := BlockAt(chunks[0], size, remaining - 1);
            && p != NULL
            && Carved(p, chunks, size, remaining - 1)
            && (forall a :: Carved(a, chunks, size, remaining) ==> a != p && Carved(a, chunks, size, remaining - 1))
  {
    hide BlockAt, ChunkBytes;
    var chunks := Mallocs(malloc, n);
    var p := BlockAt(chunks[0], size, remaining - 1);
    BlockInChunk(chunks[0], size, remaining - 1);
    assert IsBlock(p, chunks, size, remaining - 1, 0, remaining - 1);
    forall a | Carved(a, chunks, size, remaining) ensures a != p && Carved(a, chunks, size, remaining - 1) {
      var i: nat, k: nat :| IsBlock(a, chunks, size, remaining, i, k);
      assert IsBlock(a, chunks, size, remaining - 1, i, k);
      BlocksApart(malloc, n, size, 0, remaining - 1, i, k);
    }
  }

  /** A new chunk in front leaves the carved blocks carved, once the head chunk is used up. */
  lemma CarvedWithNewChunk(malloc: nat -> Address, n: nat, size: nat)
    ensures forall a :: Carved(a, Mallocs(malloc, n), size, 0)
                   ==> Carved(a, Mallocs(malloc, n + 1), size, ChunkCount(size))
  {
    var chunks, chunks' := Mallocs(malloc, n), Mallocs(malloc, n + 1);
    forall a | Carved(a, chunks, size, 0) ensures Carved(a, chunks', size, ChunkCount(size)) {
      var i: nat, k: nat :| IsBlock(a, chunks, size, 0, i, k);
      assert IsBlock(a, chunks', size, ChunkCount(size), i + 1, k);
    }
  }

  lemma MallocNext(malloc: nat -> Address, n: nat)
    ensures Mallocs(malloc, n + 1) == [malloc(n)] + Mallocs(malloc, n)
  {
  }

  lemma MallocIsNew(malloc: nat -> Address, n: nat, bytes: nat)
    requires Separates(malloc, bytes) && bytes > 0
    ensures malloc(n) != NULL && malloc(n) !in Mallocs(malloc, n)
  {
    forall i | 0 <= i < n ensures Mallocs(malloc, n)[i] != malloc(n) {
      assert Apart(malloc(n - 1 - i), bytes, malloc(n), bytes);
    }
  }

  // ---------- The heap ----------

  class Heap {
    const malloc: nat -> Address
    var mallocs: nat
    var word: Memory
    var head: Address
    var firstFree: Address
    var remaining: nat
    ghost var free: seq<Address>
    ghost var live: set<Address>

    constructor (malloc: nat -> Address, size: nat)
      requires Separates(malloc, ChunkBytes(size)) && size >= WORD_SIZE
      ensures Valid(size) && this.malloc == malloc && live == {} && free == [] && Chunks() == []
    {
      this.malloc := malloc;
      mallocs, word := 0, map[];
      head, firstFree, remaining := NULL, NULL, 0;
      free, live := [], {};
    }

    /** The chunks, latest first. */
    ghost function Chunks(): seq<Address>
      reads this
    {
      Mallocs(malloc, mallocs)
    }

    /** Blocks handed out and not given back, blocks on the free list and blocks never handed out: no two
        of these overlap, and together they are the capacity of all chunks. */
    ghost predicate Valid(size: nat)
      reads this
    {
      && size >= WORD_SIZE
      && Separates(malloc, ChunkBytes(size))
      && Linked(Chunks(), head, word)
      && Linked(free, firstFree, word)
      && remaining <= ChunkCount(size) && (mallocs == 0 ==> remaining == 0)
      && Distinct(free)
      && (forall a | a in free :: a !in live)
      && (forall a | a in live || a in free :: Carved(a, Chunks(), size, remaining))
      && |live| + |free| + remaining == mallocs * ChunkCount(size)
    }

    method Alloc(size: nat) returns (p: Address)
      requires Valid(size)
      modifies this
      ensures Valid(size)
      ensures p != NULL && p !in old(live) && live == old(live) + {p}
      ensures old(free) != [] ==> p == old(free)[0] && free == old(free)[1..] && remaining == old(remaining)
      ensures old(free) == [] ==> free == [] && mallocs > 0 && p == BlockAt(head, size, remaining)
      ensures old(free) == [] ==>
                remaining == (if old(remaining) == 0 then ChunkCount(size) else old(remaining)) - 1
      ensures mallocs == old(mallocs) + (if old(free) == [] && old(remaining) == 0 then 1 else 0)
      ensures forall a | a in old(live) && a in old(word) :: a in word && word[a] == old(word)[a]
    {
      hide Separates, Carved, Linked, ChunkCount, ChunkBytes, BlockAt, LinkAt;
      LinkedFirst(free, firstFree, word);
      if firstFree != NULL {
        p := firstFree;
        firstFree := word[p];
        free, live := free[1..], live + {p};
      } else {
        if remaining == 0 {
          AddChunk(size);
        }
        p := Carve(size);
      }
    }

    /** The part of `Alloc` that carves a block out of the head chunk. */
    method Carve(size: nat) returns (p: Address)
      requires Valid(size) && remaining > 0
      modifies this`remaining, this`live
      ensures Valid(size) && remaining == old(remaining) - 1 && p == BlockAt(head, size, remaining)
      ensures p != NULL && p !in old(live) && live == old(live) + {p}
    {
      hide Separates, Carved, Linked, ChunkCount, ChunkBytes, BlockAt, LinkAt;
      CarveNext(malloc, mallocs, size, remaining);
      LinkedFirst(Chunks(), head, word);
      remaining := remaining - 1;
      p := BlockAt(head, size, remaining);
      live := live + {p};
    }

    /** The part of `Alloc` that gets a new chunk. */
    method AddChunk(size: nat)
      requires Valid(size) && remaining == 0
      modifies this`mallocs, this`word, this`head, this`remaining
      ensures Valid(size) && remaining == ChunkCount(size) && mallocs == old(mallocs) + 1
      ensures forall a | a in old(live) && a in old(word) :: a in word && word[a] == old(word)[a]
    {
      hide Separates, Carved, Linked, ChunkCount, BlockAt, Mallocs;
      ghost var chunks := Chunks();
      var c := malloc(mallocs);
      MallocNext(malloc, mallocs);
      MallocIsNew(malloc, mallocs, ChunkBytes(size));
      CarvedWithNewChunk(malloc, mallocs, size);
      LinkedPush(chunks, head, word, c);
      mallocs := mallocs + 1;
      forall a | a in live || a in free ensures a != c {
        BlockIsNoHeader(malloc, mallocs, size, ChunkCount(size), a, 0);
      }
      LinkedElsewhere(free, firstFree, word, c, head);
      word := word[c := head];
      head := c;
      remaining := ChunkCount(size);
    }

    method Free(size: nat, p: Address)
      requires Valid(size) && p in live
      modifies this`word, this`firstFree, this`free, this`live
      ensures Valid(size)
      ensures live == old(live) - {p} && free == [p] + old(free)
      ensures forall a | a in live && a in old(word) :: a in word && word[a] == old(word)[a]
    {
      hide Separates, Carved, Linked, ChunkCount, BlockAt, Mallocs;
      BlockIsNotChunk(size, p);
      LinkedElsewhere(Chunks(), head, word, p, firstFree);
      LinkedPush(free, firstFree, word, p);
      word := word[p := firstFree];
      firstFree := p;
      free, live := [p] + free, live - {p};
    }

    lemma BlockIsNotChunk(size: nat, p: Address)
      requires Valid(size) && (p in live || p in free)
      ensures p != NULL && p !in Chunks()
    {
      hide Separates, Linked, BlockAt, ChunkBytes, Carved;
      forall c | 0 <= c < mallocs ensures Chunks()[c] != p {
        BlockIsNoHeader(malloc, mallocs, size, remaining, p, c);
      }
      CarvedIsNotNull(p, Chunks(), size, remaining);
    }

    /** A client's write to the first word of a block that it holds. */
    method Store(size: nat, p: Address, v: Address)
      requires Valid(size) && p in live
      modifies this`word
      ensures Valid(size) && word == old(word)[p := v]
    {
      hide Separates, Carved, Linked, ChunkCount, BlockAt, Mallocs;
      BlockIsNotChunk(size, p);
      LinkedElsewhere(Chunks(), head, word, p, v);
      LinkedElsewhere(free, firstFree, word, p, v);
      word := word[p := v];
    }

    /** Gives every chunk back, each once, and reads a chunk's header only while it is still owned. */
    method Cleanup(size: nat) returns (released: seq<Address>)
      requires Valid(size)
      modifies this`word
      ensures released == Chunks()
      ensures Gone(word, Chunks(), ChunkBytes(size))
    {
      hide Separates, Linked, ChunkBytes, Mallocs, Gone, Carved;
      var c := head;
      released := [];
      ghost var rest := Chunks();
      assert Gone(word, [], ChunkBytes(size)) by { NothingGone(word, ChunkBytes(size)); }
      LinkedFirst(rest, c, word);
      while c != NULL
        invariant Linked(rest, c, word) && Gone(word, released, ChunkBytes(size))
        invariant |released| <= mallocs && released == Chunks()[..|released|] && rest == Chunks()[|released|..]
        decreases |rest|
      {
        LinkedFirst(rest, c, word);
        var n := word[c];
        ReleaseKeepsRest(malloc, mallocs, size, |released|, word);
        GoneMore(word, released, c, ChunkBytes(size));
        word := Released(word, c, ChunkBytes(size));
        released, rest := released + [c], rest[1..];
        c := n;
      }
      LinkedFirst(rest, c, word);
    }

    /** The bytes of a held block belong to it alone: they overlap no other held or free block and no
        chunk header, and lie inside a chunk. */
    lemma HeldBlocksAreDisjoint(size: nat, a: Address, b: Address)
      requires Valid(size) && a in live && (b in live || b in free) && a != b
      ensures Apart(a, size, b, size)
      ensures forall c | 0 <= c < mallocs :: Apart(a, size, Chunks()[c], HEADER_SIZE)
      ensures exists c :: 0 <= c < mallocs && Chunks()[c] < a && a + size <= Chunks()[c] + ChunkBytes(size)
    {
      hide BlockAt, Separates;
      forall c | 0 <= c < mallocs ensures Apart(a, size, Chunks()[c], HEADER_SIZE) {
        BlockIsNoHeader(malloc, mallocs, size, remaining, a, c);
      }
      var i: nat, k: nat :| IsBlock(a, Chunks(), size, remaining, i, k);
      var i': nat, k': nat :| IsBlock(b, Chunks(), size, remaining, i', k');
      BlocksApart(malloc, mallocs, size, i, k, i', k');
      BlockInChunk(Chunks()[i], size, k);
    }
  }

  /** Memory without the words of a region that was given back. */
  function Released(word: Memory, base: Address, bytes: nat): Memory {
    map a | a in word && !(base <= a < base + bytes) :: word[a]
  }

  /** No word of the given regions is in memory any more. */
  ghost predicate Gone(word: Memory, regions: seq<Address>, bytes: nat) {
    forall i, a | 0 <= i < |regions| && a in word :: !(regions[i] <= a < regions[i] + bytes)
  }

  lemma NothingGone(word: Memory, bytes: nat)
    ensures Gone(word, [], bytes)
  {
  }

  lemma GoneMore(word: Memory, regions: seq<Address>, c: Address, bytes: nat)
    requires Gone(word, regions, bytes)
    ensures Gone(Released(word, c, bytes), regions + [c], bytes)
  {
  }

  /** Giving a chunk back takes no header of the later ones with it. */
  lemma ReleaseKeepsRest(malloc: nat -> Address, n: nat, size: nat, k: nat, word: Memory)
    requires Separates(malloc, ChunkBytes(size)) && k < n
    requires var rest := Mallocs(malloc, n)[k..]; Linked(rest, rest[0], word)
    ensures var rest := Mallocs(malloc, n)[k..];
            && rest[0] in word
            && Linked(rest[1..], word[rest[0]], Released(word, rest[0], ChunkBytes(size)))
  {
    hide Linked, ChunkBytes;
    var rest: seq<Address> := Mallocs(malloc, n)[k..];
    LinkedFirst(rest, rest[0], word);
    var later, word' := rest[1..], Released(word, rest[0], ChunkBytes(size));
    assert ChunkBytes(size) > 0 by { ChunkHasHeader(size); }
    forall i | 0 <= i < |later| ensures !(rest[0] <= later[i] < rest[0] + ChunkBytes(size)) {
      assert Apart(malloc(n - 1 - (k + 1 + i)), ChunkBytes(size), malloc(n - 1 - k), ChunkBytes(size));
    }
    LinkedFrame(later, word[rest[0]], word, word');
  }

  lemma ChunkHasHeader(size: nat)
    ensures ChunkBytes(size) > 0
  {
  }
}
