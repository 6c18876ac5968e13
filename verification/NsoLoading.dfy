/** Loading the segments of a module into its mapping, where compressed input is staged at the end of
    the same buffer it is decompressed into. */
module NsoLoading {
  import opened MachineInts
  import opened Buffers
  import opened ProcessLayout
  import opened Wrappers

  datatype Status = Ok | ReadFailed | InvalidNso | Fault

  /** The module file; `readable` is false when the file system reports an error. */
  datatype File = File(data: seq<byte>, readable: bool)
  {
    /** The bytes a read request gets: fewer than asked for at the end of the file. */
    function Read(offset: nat, size: nat): (s: seq<byte>)
      ensures |s| <= size
    {
      if offset > |data| then [] else data[offset..Min(offset + size, |data|)]
    }
  }

  /** LZ4 decompression and SHA-256, which are not part of this model. */
  datatype Codec = Codec(decompress: seq<byte> -> seq<byte>, hash: seq<byte> -> seq<byte>)

  const INT32_MAX := 0x7FFF_FFFF

  datatype Segment = Segment(fileOffset: U32, dst: U32, size: U32, compressed: bool, compressedSize: U32,
                             checkHash: bool, hash: seq<byte>)
  {
    function FileSize(): U32 { if compressed then compressedSize else size }

    /** Where the compressed bytes are put in a mapping: at its end. Nothing is staged otherwise. */
    function Staging(length: nat): nat {
      if compressed && compressedSize <= length then length - compressedSize else length
    }

    function End(): nat { dst + size }

    /** The end as the source computes it, in 32 bits. */
    function WordEnd(): (e: nat)
      ensures e <= End() && (e == End() <==> End() < 0x1_0000_0000)
    {
      WrapU32(End())
    }

    /** The bytes the segment should have in memory, or nothing if the file does not provide them. */
    function Content(file: File, codec: Codec): (c: Option<seq<byte>>)
      ensures c.Some? ==> |c.value| == size && FileSize() <= size
    {
      var raw := file.Read(fileOffset, FileSize());
      if FileSize() > size || size > INT32_MAX || !file.readable || |raw| != FileSize() then None
      else
        var bytes := if compressed then codec.decompress(raw) else raw;
        if |bytes| != size || (checkHash && codec.hash(bytes) != hash) then None else Some(bytes)
    }
  }

  function Zeros(n: nat): (s: seq<byte>)
    ensures |s| == n
  {
    seq(n, _ => 0)
  }

  /** `bytes` with `size` of them from `at` on set to zero. */
  function Zeroed(bytes: seq<byte>, at: nat, size: nat): (r: seq<byte>)
    requires at + size <= |bytes|
    ensures |r| == |bytes|
  {
    bytes[..at] + Zeros(size) + bytes[at + size..]
  }

  lemma ZeroedParts(bytes: seq<byte>, at: nat, size: nat)
    requires at + size <= |bytes|
    ensures var r := Zeroed(bytes, at, size);
            r[..at] == bytes[..at] && r[at..at + size] == Zeros(size) && r[at + size..] == bytes[at + size..]
  {
  }

  /** `memset` to zero of a 64-bit size; one that leaves the mapping is a memory fault. */
  method Clear(mem: array<byte>, at: nat, size: nat) returns (ok: bool)
    requires at <= mem.Length
    modifies mem
    ensures ok <==> at + size <= mem.Length
    ensures ok ==> mem[..] == Zeroed(old(mem[..]), at, size)
  {
    hide Zeros;
    ok := at + size <= mem.Length;
    if ok {
      CopyInto(mem, at, Zeros(size));
      assert mem[..] == mem[..at] + mem[at..at + size] + mem[at + size..];
    }
  }

  /** Nothing changes but the destination and the staging area at the end of the mapping. */
  ghost predicate Untouched(before: seq<byte>, after: seq<byte>, base: nat, segment: Segment) {
    && base + segment.size <= |before| == |after|
    && before[..base] == after[..base]
    && var staging := segment.Staging(|before|);
       base + segment.size <= staging ==>
         before[base + segment.size..staging] == after[base + segment.size..staging]
  }

  lemma UntouchedSame(bytes: seq<byte>, base: nat, segment: Segment)
    requires base + segment.size <= |bytes|
    ensures Untouched(bytes, bytes, base, segment)
  {
  }

  lemma UntouchedTwice(a: seq<byte>, b: seq<byte>, c: seq<byte>, base: nat, segment: Segment)
    requires Untouched(a, b, base, segment) && Untouched(b, c, base, segment)
    ensures Untouched(a, c, base, segment)
  {
  }

  /** The part that reads the file, into the staging area if the segment is compressed. */
  method ReadSegment(mem: array<byte>, file: File, segment: Segment, base: nat) returns (r: Status, at: nat)
    requires base + segment.size <= mem.Length && segment.FileSize() <= segment.size
    modifies mem
    ensures at == (if segment.compressed then mem.Length - segment.FileSize() else base)
    ensures r in {Ok, ReadFailed, InvalidNso} && (r == ReadFailed <==> !file.readable)
    ensures var raw := file.Read(segment.fileOffset, segment.FileSize());
            && (r == Ok <==> file.readable && |raw| == segment.FileSize())
            && (r == Ok ==> mem[at..at + segment.FileSize()] == raw)
    ensures Untouched(old(mem[..]), mem[..], base, segment)
  {
    hide File.Read;
    var fileSize := segment.FileSize();
    at := if segment.compressed then mem.Length - fileSize else base;
    UntouchedSame(mem[..], base, segment);
    if !file.readable { return ReadFailed, at; }
    var bytes := file.Read(segment.fileOffset, fileSize);
    ghost var before := mem[..];
    CopyInto(mem, at, bytes);
    StagedUntouched(before, mem[..], base, segment, at, |bytes|);
    r := if |bytes| != fileSize then InvalidNso else Ok;
  }

  /** The part that decompresses what has been staged. */
  method Unpack(mem: array<byte>, codec: Codec, segment: Segment, base: nat, at: nat) returns (ok: bool)
    requires base + segment.size <= mem.Length && at + segment.FileSize() <= mem.Length
    modifies mem
    ensures var bytes := codec.decompress(old(mem[at..at + segment.FileSize()]));
            && (ok <==> |bytes| == segment.size)
            && (ok ==> mem[base..base + segment.size] == bytes)
    ensures Untouched(old(mem[..]), mem[..], base, segment)
  {
    UntouchedSame(mem[..], base, segment);
    hide Segment.FileSize;
    var decompressed := codec.decompress(mem[at..at + segment.FileSize()]);
    ok := |decompressed| == segment.size;
    if ok {
      ghost var before := mem[..];
      CopyInto(mem, base, decompressed);
      UnpackedUntouched(before, mem[..], base, segment);
    }
  }

  /** `LoadNsoSegment`: whatever happens, nothing is written outside the destination and the staging
      area at the end of the mapping. */
  method LoadSegment(mem: array<byte>, file: File, codec: Codec, segment: Segment, base: nat) returns (r: Status)
    requires base + segment.size <= mem.Length
    modifies mem
    ensures r == Ok <==> segment.Content(file, codec).Some?
    ensures r == Ok ==> mem[base..base + segment.size] == segment.Content(file, codec).value
    ensures r == Ok && segment.checkHash ==> codec.hash(mem[base..base + segment.size]) == segment.hash
    ensures r == Ok && !segment.compressed && segment.size > 0 ==>
              && segment.fileOffset + segment.size <= |file.data|
              && mem[base..base + segment.size] == file.data[segment.fileOffset..segment.fileOffset + segment.size]
    ensures r == Ok && segment.compressed && segment.compressedSize > 0 ==>
              && segment.fileOffset + segment.compressedSize <= |file.data|
              && mem[base..base + segment.size]
              == codec.decompress(file.data[segment.fileOffset..segment.fileOffset + segment.compressedSize])
    ensures var n := if segment.compressed then segment.compressedSize else segment.size;
            var there := file.readable && (n == 0 || segment.fileOffset + n <= |file.data|);
            var raw := if n == 0 || !there then [] else file.data[segment.fileOffset..segment.fileOffset + n];
            var bytes := if segment.compressed then codec.decompress(raw) else raw;
            r == Ok <==>
              && n <= segment.size <= 0x7FFF_FFFF && there && |bytes| == segment.size
              && (segment.checkHash ==> codec.hash(bytes) == segment.hash)
    ensures r == ReadFailed <==> segment.FileSize() <= segment.size <= INT32_MAX && !file.readable
    ensures r != Fault
    ensures Untouched(old(mem[..]), mem[..], base, segment)
  {
    hide File.Read, Untouched;
    ContentIs(segment, file, codec);
    UntouchedSame(mem[..], base, segment);
    if segment.FileSize() > segment.size { return InvalidNso; }
    if segment.size > INT32_MAX { return InvalidNso; }
    ghost var before := mem[..];
    var at;
    r, at := ReadSegment(mem, file, segment, base);
    if r != Ok { return; }
    if segment.compressed {
      ghost var staged := mem[..];
      var ok := Unpack(mem, codec, segment, base, at);
      UntouchedTwice(before, staged, mem[..], base, segment);
      if !ok { return InvalidNso; }
    }
    if segment.checkHash {
      var hash := codec.hash(mem[base..base + segment.size]);
      if hash != segment.hash { return InvalidNso; }
    }
    return Ok;
  }

  /** What there is to load, on the bytes of the file: as many as the header says, all of them there, of which
      the decompression has the size in memory and the hash is the stored one. */
  lemma ContentIs(s: Segment, file: File, codec: Codec)
    ensures var n := if s.compressed then s.compressedSize else s.size;
            var there := file.readable && (n == 0 || s.fileOffset + n <= |file.data|);
            var raw := if n == 0 || !there then [] else file.data[s.fileOffset..s.fileOffset + n];
            var bytes := if s.compressed then codec.decompress(raw) else raw;
            && (s.Content(file, codec).Some? <==>
                  n <= s.size <= 0x7FFF_FFFF && there && |bytes| == s.size
                  && (s.checkHash ==> codec.hash(bytes) == s.hash))
            && (s.Content(file, codec).Some? ==> s.Content(file, codec).value == bytes)
  {
    var n := if s.compressed then s.compressedSize else s.size;
    ReadAll(file, s.fileOffset, n);
    hide File.Read;
  }

  lemma ReadAll(file: File, offset: nat, n: nat)
    ensures |file.Read(offset, n)| == n <==> n == 0 || offset + n <= |file.data|
    ensures n > 0 && offset + n <= |file.data| ==> file.Read(offset, n) == file.data[offset..offset + n]
    ensures n == 0 ==> file.Read(offset, n) == []
  {
  }

  lemma StagedUntouched(before: seq<byte>, after: seq<byte>, base: nat, segment: Segment, at: nat, n: nat)
    requires base + segment.size <= |before| == |after| && n <= segment.FileSize() <= segment.size
    requires at == if segment.compressed then |before| - segment.FileSize() else base
    requires before[..at] == after[..at] && before[at + n..] == after[at + n..]
    ensures Untouched(before, after, base, segment)
  {
    PrefixKept(before, after, base, at);
    FirstCopy(before, after, at, n, base + segment.size, segment.Staging(|before|));
  }

  lemma UnpackedUntouched(before: seq<byte>, after: seq<byte>, base: nat, segment: Segment)
    requires base + segment.size <= |before| == |after|
    requires before[..base] == after[..base] && before[base + segment.size..] == after[base + segment.size..]
    ensures Untouched(before, after, base, segment)
  {
    SuffixKept(before, after, base + segment.size, segment.Staging(|before|));
  }

  /** Writing n bytes at `from` keeps what is between lo and hi, outside of them. */
  lemma FirstCopy(before: seq<byte>, after: seq<byte>, from: nat, n: nat, lo: nat, hi: nat)
    requires |before| == |after| && from + n <= |before|
    requires before[..from] == after[..from] && before[from + n..] == after[from + n..]
    requires hi <= from || from + n <= lo
    ensures lo <= hi <= |before| ==> before[lo..hi] == after[lo..hi]
  {
    if lo <= hi <= |before| { SliceKept(before, after, from, from + n, lo, hi); }
  }

  lemma SuffixKept(before: seq<byte>, after: seq<byte>, lo: nat, hi: nat)
    requires |before| == |after| && lo <= |before| && before[lo..] == after[lo..]
    ensures lo <= hi <= |before| ==> before[lo..hi] == after[lo..hi]
  {
    if lo <= hi <= |before| {
      assert before[lo..hi] == before[lo..][..hi - lo] && after[lo..hi] == after[lo..][..hi - lo];
    }
  }

  lemma PrefixKept(before: seq<byte>, after: seq<byte>, n: nat, m: nat)
    requires n <= m <= |before| == |after| && before[..m] == after[..m]
    ensures before[..n] == after[..n]
  {
    assert before[..n] == before[..m][..n];
  }

  /** The three segments of a module and its zero-initialized data. */
  datatype Module = Module(text: Segment, ro: Segment, rw: Segment, bssSize: U32)
  {
    /** Every segment lies inside a mapping of `size` bytes. */
    predicate InsideMapping(size: nat) {
      text.End() <= size && ro.End() <= size && rw.End() + bssSize <= size && size <= 0x1_0000_0000
    }

    /** The segments come in the order text, ro, rw without overlapping. */
    predicate Ordered() { text.End() <= ro.dst && ro.End() <= rw.dst }

    /** No gap has a negative size, going by the ends in 32 bits. */
    predicate Clearable() { text.WordEnd() <= ro.dst && ro.WordEnd() <= rw.dst }

    predicate Available(file: File, codec: Codec) {
      text.Content(file, codec).Some? && ro.Content(file, codec).Some? && rw.Content(file, codec).Some?
    }

    /** What memory should hold: the segments, and zeros before, between and after them. */
    function Image(file: File, codec: Codec): seq<byte>
      requires Ordered() && Available(file, codec)
    {
      Zeros(text.dst) + text.Content(file, codec).value
      + Zeros(ro.dst - text.End()) + ro.Content(file, codec).value
      + Zeros(rw.dst - ro.End()) + rw.Content(file, codec).value
      + Zeros(bssSize)
    }
  }

  /** The 64-bit difference used as a `memset` size. */
  function SizeT(x: int): nat { x % 0x1_0000_0000_0000_0000 }

  lemma SliceKept(before: seq<byte>, after: seq<byte>, from: nat, to: nat, lo: nat, hi: nat)
    requires |before| == |after| && from <= to <= |before|
    requires before[..from] == after[..from] && before[to..] == after[to..]
    requires lo <= hi <= from || to <= lo <= hi <= |before|
    ensures before[lo..hi] == after[lo..hi]
  {
    if hi <= from {
      forall k | lo <= k < hi ensures before[k] == after[k] {
        assert before[..from][k] == after[..from][k];
      }
    } else {
      forall k | lo <= k < hi ensures before[k] == after[k] {
        assert before[to..][k - to] == after[to..][k - to];
      }
    }
  }

  /** The ranges of a module in address order: gap, text, gap, ro, gap, rw, and the zero-initialized data. */
  ghost function Ranges(m: Module): (rs: seq<(nat, nat)>)
    requires m.Ordered()
    ensures |rs| == 7
    ensures forall k | 0 <= k < 7 :: rs[k].0 <= rs[k].1 <= m.rw.End() + m.bssSize
    ensures forall j, k | 0 <= j < k < 7 :: rs[j].1 <= rs[k].0
  {
    [(0, m.text.dst), (m.text.dst, m.text.End()), (m.text.End(), m.ro.dst), (m.ro.dst, m.ro.End()),
     (m.ro.End(), m.rw.dst), (m.rw.dst, m.rw.End()), (m.rw.End(), m.rw.End() + m.bssSize)]
  }

  /** What range `k` should hold. */
  ghost function Expected(m: Module, file: File, codec: Codec, k: nat): seq<byte>
    requires m.Ordered() && m.Available(file, codec) && k < 7
  {
    if k == 1 then m.text.Content(file, codec).value
    else if k == 3 then m.ro.Content(file, codec).value
    else if k == 5 then m.rw.Content(file, codec).value
    else Zeros(Ranges(m)[k].1 - Ranges(m)[k].0)
  }

  ghost predicate InPlace(bytes: seq<byte>, m: Module, file: File, codec: Codec, k: nat)
    requires m.InsideMapping(|bytes|) && m.Available(file, codec) && m.Ordered() && k < 7
  {
    bytes[Ranges(m)[k].0..Ranges(m)[k].1] == Expected(m, file, codec, k)
  }

  /** The segments are in memory. */
  ghost predicate Loaded(bytes: seq<byte>, m: Module, file: File, codec: Codec)
    requires m.InsideMapping(|bytes|) && m.Available(file, codec) && m.Ordered()
  {
    Held(bytes, m, file, codec, 0)
  }

  /** The segments and the ranges before number n are as they should be. */
  ghost predicate Held(bytes: seq<byte>, m: Module, file: File, codec: Codec, n: nat)
    requires m.InsideMapping(|bytes|) && m.Available(file, codec) && m.Ordered()
  {
    forall k | 0 <= k < 7 && (k < n || k in {1, 3, 5}) :: InPlace(bytes, m, file, codec, k)
  }

  /** Loads the three segments in order; staging one never clobbers those before it. */
  method LoadSegments(mem: array<byte>, file: File, codec: Codec, m: Module) returns (r: Status)
    requires m.InsideMapping(mem.Length)
    modifies mem
    ensures r == Ok <==> m.Available(file, codec)
    ensures r != Fault
    ensures r == Ok && m.Ordered() ==> Loaded(mem[..], m, file, codec)
  {
    hide Segment.Content, Zeros, Loaded, Untouched;
    r := LoadSegment(mem, file, codec, m.text, m.text.dst);
    if r != Ok { return; }
    ghost var before := mem[..];
    r := LoadSegment(mem, file, codec, m.ro, m.ro.dst);
    if r != Ok { return; }
    ghost var middle := mem[..];
    r := LoadSegment(mem, file, codec, m.rw, m.rw.dst);
    if r == Ok && m.Ordered() {
      AllLoaded(before, middle, mem[..], m, file, codec);
    }
  }

  /** Each load leaves the segments before it. */
  lemma AllLoaded(before: seq<byte>, middle: seq<byte>, after: seq<byte>, m: Module, file: File, codec: Codec)
    requires m.InsideMapping(|before|) && m.Available(file, codec) && m.Ordered() && |after| == |before|
    requires before[m.text.dst..m.text.End()] == m.text.Content(file, codec).value
    requires Untouched(before, middle, m.ro.dst, m.ro) && Untouched(middle, after, m.rw.dst, m.rw)
    requires middle[m.ro.dst..m.ro.End()] == m.ro.Content(file, codec).value
    requires after[m.rw.dst..m.rw.End()] == m.rw.Content(file, codec).value
    ensures Loaded(after, m, file, codec)
  {
    hide Segment.Content, Segment.Staging, Loaded;
    SegmentKept(before, middle, m.ro.dst, m.text.dst, m.text.End());
    SegmentKept(middle, after, m.rw.dst, m.text.dst, m.text.End());
    SegmentKept(middle, after, m.rw.dst, m.ro.dst, m.ro.End());
    SegmentsLoaded(after, m, file, codec);
  }

  lemma SegmentsLoaded(bytes: seq<byte>, m: Module, file: File, codec: Codec)
    requires m.InsideMapping(|bytes|) && m.Available(file, codec) && m.Ordered()
    requires bytes[m.text.dst..m.text.End()] == m.text.Content(file, codec).value
    requires bytes[m.ro.dst..m.ro.End()] == m.ro.Content(file, codec).value
    requires bytes[m.rw.dst..m.rw.End()] == m.rw.Content(file, codec).value
    ensures Loaded(bytes, m, file, codec)
  {
  }

  lemma SegmentKept(before: seq<byte>, after: seq<byte>, n: nat, lo: nat, hi: nat)
    requires |before| == |after| && lo <= hi <= n <= |before| && before[..n] == after[..n]
    ensures before[lo..hi] == after[lo..hi]
  {
    assert before[lo..hi] == before[..n][lo..hi];
  }

  lemma GapRanges(m: Module)
    requires m.Ordered()
    ensures Ranges(m)[0] == (0, m.text.dst) && Ranges(m)[2] == (m.text.End(), m.ro.dst)
    ensures Ranges(m)[4] == (m.ro.End(), m.rw.dst) && Ranges(m)[6] == (m.rw.End(), m.rw.End() + m.bssSize)
  {
  }

  /** The size of the gap between two segments, as `memset` sees it. */
  lemma GapSize(from: U32, to: nat, length: nat)
    requires to <= length <= 0x1_0000_0000
    ensures to <= from ==> SizeT(from - to) == from - to
    ensures from < to ==> to + SizeT(from - to) > length
  {
  }

  /** Memory after the four `memset` calls. */
  ghost function Cleared(bytes: seq<byte>, m: Module): (r: seq<byte>)
    requires m.InsideMapping(|bytes|) && m.Clearable()
    ensures |r| == |bytes|
  {
    var b1 := Zeroed(bytes, 0, m.text.dst);
    var b2 := Zeroed(b1, m.text.WordEnd(), m.ro.dst - m.text.WordEnd());
    var b3 := Zeroed(b2, m.ro.WordEnd(), m.rw.dst - m.ro.WordEnd());
    Zeroed(b3, m.rw.WordEnd(), m.bssSize)
  }

  /** Zeroes what the segments leave; a gap of negative size is a memory fault. */
  method ClearGaps(mem: array<byte>, m: Module) returns (r: Status)
    requires m.InsideMapping(mem.Length)
    modifies mem
    ensures r == if m.Clearable() then Ok else Fault
    ensures r == Ok ==> mem[..] == Cleared(old(mem[..]), m)
  {
    hide SizeT, Zeroed;
    var textEnd, roEnd, rwEnd := m.text.WordEnd(), m.ro.WordEnd(), m.rw.WordEnd();
    GapSize(m.ro.dst, textEnd, mem.Length);
    GapSize(m.rw.dst, roEnd, mem.Length);
    var ok := Clear(mem, 0, m.text.dst);
    ok := Clear(mem, textEnd, SizeT(m.ro.dst - textEnd));
    if !ok { return Fault; }
    ok := Clear(mem, roEnd, SizeT(m.rw.dst - roEnd));
    if !ok { return Fault; }
    ok := Clear(mem, rwEnd, m.bssSize);
    return Ok;
  }

  // ---------- Segments in order ----------

  lemma OrderedIsClearable(m: Module)
    requires m.Ordered()
    ensures m.Clearable() && m.text.WordEnd() == m.text.End() && m.ro.WordEnd() == m.ro.End()
  {
  }

  /** Zeroing range i fills it and keeps the others; after it comes a segment. */
  lemma ZeroRange(bytes: seq<byte>, at: nat, size: nat, m: Module, file: File, codec: Codec, i: nat)
    requires m.InsideMapping(|bytes|) && m.Available(file, codec) && m.Ordered() && i in {0, 2, 4, 6}
    requires Ranges(m)[i] == (at, at + size) && at + size <= |bytes|
    requires Held(bytes, m, file, codec, i)
    ensures Held(Zeroed(bytes, at, size), m, file, codec, i + 2)
  {
    hide Zeros, Segment.Content, Zeroed;
    var after := Zeroed(bytes, at, size);
    ZeroedParts(bytes, at, size);
    forall k | 0 <= k < 7 && (k < i + 2 || k in {1, 3, 5}) ensures InPlace(after, m, file, codec, k) {
      if k != i {
        assert InPlace(bytes, m, file, codec, k);
        SliceKept(bytes, after, at, at + size, Ranges(m)[k].0, Ranges(m)[k].1);
      }
    }
  }

  /** The gaps before text and before ro. */
  lemma LowGapsCleared(bytes: seq<byte>, m: Module, file: File, codec: Codec)
    requires m.InsideMapping(|bytes|) && m.Available(file, codec) && m.Ordered() && Loaded(bytes, m, file, codec)
    ensures Held(Zeroed(Zeroed(bytes, 0, m.text.dst), m.text.End(), m.ro.dst - m.text.End()), m, file, codec, 4)
  {
    hide Held, Ranges, Segment.Content, Zeroed, Zeros, Module.Available, InPlace;
    GapRanges(m);
    ZeroRange(bytes, 0, m.text.dst, m, file, codec, 0);
    ZeroRange(Zeroed(bytes, 0, m.text.dst), m.text.End(), m.ro.dst - m.text.End(), m, file, codec, 2);
  }

  /** The gap before rw, and the zero-initialized data. */
  lemma HighGapsCleared(bytes: seq<byte>, m: Module, file: File, codec: Codec)
    requires m.InsideMapping(|bytes|) && m.Available(file, codec) && m.Ordered() && Held(bytes, m, file, codec, 4)
    ensures Held(Zeroed(Zeroed(bytes, m.ro.End(), m.rw.dst - m.ro.End()), m.rw.End(), m.bssSize), m, file, codec, 8)
  {
    hide Held, Ranges, Segment.Content, Zeroed, Zeros, Module.Available, InPlace;
    GapRanges(m);
    ZeroRange(bytes, m.ro.End(), m.rw.dst - m.ro.End(), m, file, codec, 4);
    ZeroRange(Zeroed(bytes, m.ro.End(), m.rw.dst - m.ro.End()), m.rw.End(), m.bssSize, m, file, codec, 6);
  }

  lemma ClearedInOrder(bytes: seq<byte>, m: Module, file: File, codec: Codec)
    requires m.InsideMapping(|bytes|) && m.Available(file, codec) && m.Ordered() && Loaded(bytes, m, file, codec)
    ensures m.Clearable()
    ensures Held(Cleared(bytes, m), m, file, codec, 8)
  {
    OrderedIsClearable(m);
    hide Held, Ranges, Segment.Content, Zeroed, Segment.WordEnd, Cleared, Zeros, Module.Available, Module.Clearable;
    OrderedCleared(bytes, m);
    LowGapsCleared(bytes, m, file, codec);
    HighGapsCleared(Zeroed(Zeroed(bytes, 0, m.text.dst), m.text.End(), m.ro.dst - m.text.End()), m, file, codec);
  }

  /** In order, the ends in 32 bits are the ends. */
  lemma OrderedCleared(bytes: seq<byte>, m: Module)
    requires m.InsideMapping(|bytes|) && m.Ordered() && m.Clearable()
    ensures var b1 := Zeroed(bytes, 0, m.text.dst);
            var b2 := Zeroed(b1, m.text.End(), m.ro.dst - m.text.End());
            var b3 := Zeroed(b2, m.ro.End(), m.rw.dst - m.ro.End());
            Cleared(bytes, m) == Zeroed(b3, m.rw.End(), m.bssSize)
  {
    OrderedIsClearable(m);
    hide Zeroed, Segment.WordEnd, Module.Clearable;
    var b1 := Zeroed(bytes, 0, m.text.dst);
    var b2 := Zeroed(b1, m.text.End(), m.ro.dst - m.text.End());
    BssCleared(Zeroed(b2, m.ro.End(), m.rw.dst - m.ro.End()), m.rw, m.bssSize);
  }

  /** An end of rw that wraps has nothing behind it to clear. */
  lemma BssCleared(bytes: seq<byte>, rw: Segment, bssSize: nat)
    requires rw.End() + bssSize <= |bytes| <= 0x1_0000_0000
    ensures rw.WordEnd() + bssSize <= |bytes|
    ensures Zeroed(bytes, rw.WordEnd(), bssSize) == Zeroed(bytes, rw.End(), bssSize)
  {
    hide Zeroed, Segment.WordEnd;
    if bssSize == 0 { NothingZeroed(bytes, rw.WordEnd(), rw.End()); }
  }

  lemma NothingZeroed(bytes: seq<byte>, at: nat, at': nat)
    requires at <= |bytes| && at' <= |bytes|
    ensures Zeroed(bytes, at, 0) == Zeroed(bytes, at', 0) == bytes
  {
  }

  // ---------- An end at exactly 4 GB ----------

  const FOUR_GB := 0x1_0000_0000

  /** Segments out of order go unnoticed exactly when an end of exactly 4 GB, which is zero in 32 bits, is
      what is out of order. */
  lemma UnnoticedDisorder(m: Module, size: nat)
    requires m.InsideMapping(size)
    ensures m.Clearable() && !m.Ordered() <==>
            && (m.text.End() == FOUR_GB || m.ro.End() == FOUR_GB)
            && (m.text.End() == FOUR_GB || m.text.End() <= m.ro.dst)
            && (m.ro.End() == FOUR_GB || m.ro.End() <= m.rw.dst)
  {
  }

  /** Then everything below the next segment has been set to zero, whatever was loaded there. */
  lemma DisorderErases(bytes: seq<byte>, m: Module)
    requires m.InsideMapping(|bytes|) && m.Clearable()
    ensures m.text.End() == FOUR_GB ==> Cleared(bytes, m)[..m.ro.dst] == Zeros(m.ro.dst)
    ensures m.ro.End() == FOUR_GB ==> Cleared(bytes, m)[..m.rw.dst] == Zeros(m.rw.dst)
  {
    hide Segment.WordEnd, Zeroed;
    var b1 := Zeroed(bytes, 0, m.text.dst);
    var b2 := Zeroed(b1, m.text.WordEnd(), m.ro.dst - m.text.WordEnd());
    var b3 := Zeroed(b2, m.ro.WordEnd(), m.rw.dst - m.ro.WordEnd());
    if m.text.End() == FOUR_GB {
      WordEndOfFourGb(m.text);
      ZeroedParts(b1, 0, m.ro.dst);
      assert b2[..m.ro.dst] == b2[0..0 + m.ro.dst] == Zeros(m.ro.dst);
      ZeroedStaysZero(b2, m.ro.WordEnd(), m.rw.dst - m.ro.WordEnd(), m.ro.dst);
      ZeroedStaysZero(b3, m.rw.WordEnd(), m.bssSize, m.ro.dst);
    }
    if m.ro.End() == FOUR_GB {
      WordEndOfFourGb(m.ro);
      ZeroedParts(b2, 0, m.rw.dst);
      assert b3[..m.rw.dst] == b3[0..0 + m.rw.dst] == Zeros(m.rw.dst);
      ZeroedStaysZero(b3, m.rw.WordEnd(), m.bssSize, m.rw.dst);
    }
  }

  lemma WordEndOfFourGb(s: Segment)
    requires s.End() == FOUR_GB
    ensures s.WordEnd() == 0
  {
  }

  lemma ZeroedStaysZero(bytes: seq<byte>, at: nat, size: nat, n: nat)
    requires at + size <= |bytes| && n <= |bytes| && bytes[..n] == Zeros(n)
    ensures Zeroed(bytes, at, size)[..n] == Zeros(n)
  {
    var r := Zeroed(bytes, at, size);
    forall k | 0 <= k < n ensures r[k] == 0 {
      assert bytes[..n][k] == Zeros(n)[k];
    }
  }

  /** A program can get there: the layout reserves 4 GB for this module, all of its segments are inside, and
      clearing the gap before rw erases text and nearly all of ro without a fault. */
  lemma FourGbModule(text: Segment, ro: Segment, rw: Segment)
    requires (text.dst, text.size) == (0, 0x1000)
    requires (ro.dst, ro.size) == (0x8000_0001, 0x7FFF_FFFF)
    requires (rw.dst, rw.size) == (0xFFFF_FF00, 0x80)
    ensures var m := Module(text, ro, rw, 0);
            && NsoSize(HeaderOf(m)) == FOUR_GB && m.InsideMapping(FOUR_GB)
            && m.Clearable() && !m.Ordered() && m.ro.End() == FOUR_GB
  {
  }

  /** The ranges one after the other are the image. */
  lemma AssembleImage(bytes: seq<byte>, m: Module, file: File, codec: Codec)
    requires m.InsideMapping(|bytes|) && m.Available(file, codec) && m.Ordered()
    requires Held(bytes, m, file, codec, 8)
    ensures bytes[..m.rw.End() + m.bssSize] == m.Image(file, codec)
  {
    hide Zeros, Segment.Content, Held, Expected, Ranges;
    RangesHold(bytes, m, file, codec);
    assert bytes[..m.rw.End() + m.bssSize]
        == bytes[..m.text.dst] + bytes[m.text.dst..m.text.End()]
         + bytes[m.text.End()..m.ro.dst] + bytes[m.ro.dst..m.ro.End()]
         + bytes[m.ro.End()..m.rw.dst] + bytes[m.rw.dst..m.rw.End()]
         + bytes[m.rw.End()..m.rw.End() + m.bssSize];
  }

  lemma RangesHold(bytes: seq<byte>, m: Module, file: File, codec: Codec)
    requires m.InsideMapping(|bytes|) && m.Available(file, codec) && m.Ordered()
    requires Held(bytes, m, file, codec, 8)
    ensures bytes[..m.text.dst] == Zeros(m.text.dst)
    ensures bytes[m.text.dst..m.text.End()] == m.text.Content(file, codec).value
    ensures bytes[m.text.End()..m.ro.dst] == Zeros(m.ro.dst - m.text.End())
    ensures bytes[m.ro.dst..m.ro.End()] == m.ro.Content(file, codec).value
    ensures bytes[m.ro.End()..m.rw.dst] == Zeros(m.rw.dst - m.ro.End())
    ensures bytes[m.rw.dst..m.rw.End()] == m.rw.Content(file, codec).value
    ensures bytes[m.rw.End()..m.rw.End() + m.bssSize] == Zeros(m.bssSize)
  {
    hide Zeros, Segment.Content, InPlace;
    forall k | 0 <= k < 7 ensures InPlace(bytes, m, file, codec, k) {}
    hide Held;
    TextHolds(bytes, m, file, codec);
    RoHolds(bytes, m, file, codec);
    RwHolds(bytes, m, file, codec);
  }

  lemma TextHolds(bytes: seq<byte>, m: Module, file: File, codec: Codec)
    requires m.InsideMapping(|bytes|) && m.Available(file, codec) && m.Ordered()
    requires InPlace(bytes, m, file, codec, 0) && InPlace(bytes, m, file, codec, 1)
    ensures bytes[..m.text.dst] == Zeros(m.text.dst)
    ensures bytes[m.text.dst..m.text.End()] == m.text.Content(file, codec).value
  {
    hide Zeros, Segment.Content;
  }

  lemma RoHolds(bytes: seq<byte>, m: Module, file: File, codec: Codec)
    requires m.InsideMapping(|bytes|) && m.Available(file, codec) && m.Ordered()
    requires InPlace(bytes, m, file, codec, 2) && InPlace(bytes, m, file, codec, 3)
    ensures bytes[m.text.End()..m.ro.dst] == Zeros(m.ro.dst - m.text.End())
    ensures bytes[m.ro.dst..m.ro.End()] == m.ro.Content(file, codec).value
  {
    hide Zeros, Segment.Content;
  }

  lemma RwHolds(bytes: seq<byte>, m: Module, file: File, codec: Codec)
    requires m.InsideMapping(|bytes|) && m.Available(file, codec) && m.Ordered()
    requires InPlace(bytes, m, file, codec, 4) && InPlace(bytes, m, file, codec, 5)
    requires InPlace(bytes, m, file, codec, 6)
    ensures bytes[m.ro.End()..m.rw.dst] == Zeros(m.rw.dst - m.ro.End())
    ensures bytes[m.rw.dst..m.rw.End()] == m.rw.Content(file, codec).value
    ensures bytes[m.rw.End()..m.rw.End() + m.bssSize] == Zeros(m.bssSize)
  {
    hide Zeros, Segment.Content;
  }

  /** `LoadNsoIntoProcessMemory` up to the patches. With the segments in order, success means that memory
      is exactly the image of the module. Out of order, the next gap has a negative size and clearing it
      faults, unless the end before it is at exactly 4 GB: then loading succeeds with what lies below the
      next segment erased. */
  method LoadModule(mem: array<byte>, file: File, codec: Codec, m: Module) returns (r: Status)
    requires m.InsideMapping(mem.Length)
    modifies mem
    ensures r == Ok <==> m.Available(file, codec) && m.Clearable()
    ensures r == Fault <==> m.Available(file, codec) && !m.Clearable()
    ensures r == Ok && m.Ordered() ==> mem[..m.rw.End() + m.bssSize] == m.Image(file, codec)
    ensures r == Ok && m.text.End() == FOUR_GB ==> mem[..m.ro.dst] == Zeros(m.ro.dst)
    ensures r == Ok && m.ro.End() == FOUR_GB ==> mem[..m.rw.dst] == Zeros(m.rw.dst)
  {
    hide Segment.Content, Segment.WordEnd, Held, Module.Image, Cleared, Zeros;
    r := LoadSegments(mem, file, codec, m);
    if r != Ok { return; }
    ghost var loaded := mem[..];
    r := ClearGaps(mem, m);
    if r == Ok {
      DisorderErases(loaded, m);
      if m.Ordered() {
        ClearedInOrder(loaded, m, file, codec);
        AssembleImage(mem[..], m, file, codec);
        assert mem[..m.rw.End() + m.bssSize] == mem[..][..m.rw.End() + m.bssSize];
      }
      assert mem[..m.ro.dst] == mem[..][..m.ro.dst] && mem[..m.rw.dst] == mem[..][..m.rw.dst];
    }
  }

  /** Memory that is the image of a module has, in place of each segment, what the file has for it, with the hash
      that is stored for it. */
  lemma ImageIs(bytes: seq<byte>, m: Module, file: File, codec: Codec, s: Segment)
    requires m.Ordered() && m.Available(file, codec) && bytes == m.Image(file, codec)
    requires s == m.text || s == m.ro || s == m.rw
    ensures var n := if s.compressed then s.compressedSize else s.size;
            && s.dst + s.size <= |bytes| && (n == 0 || s.fileOffset + n <= |file.data|)
            && (s.checkHash ==> codec.hash(bytes[s.dst..s.dst + s.size]) == s.hash)
            && var raw := if n == 0 then [] else file.data[s.fileOffset..s.fileOffset + n];
               bytes[s.dst..s.dst + s.size] == if s.compressed then codec.decompress(raw) else raw
  {
    ImageParts(bytes, m, file, codec);
    hide Segment.Content, Module.Image, Module.Ordered;
    SegmentIs(bytes, s, file, codec);
  }

  lemma SegmentIs(bytes: seq<byte>, s: Segment, file: File, codec: Codec)
    requires s.dst + s.size <= |bytes| && s.Content(file, codec).Some?
    requires bytes[s.dst..s.dst + s.size] == s.Content(file, codec).value
    ensures var n := if s.compressed then s.compressedSize else s.size;
            && (n == 0 || s.fileOffset + n <= |file.data|)
            && (s.checkHash ==> codec.hash(bytes[s.dst..s.dst + s.size]) == s.hash)
            && var raw := if n == 0 then [] else file.data[s.fileOffset..s.fileOffset + n];
               bytes[s.dst..s.dst + s.size] == if s.compressed then codec.decompress(raw) else raw
  {
    hide Segment.Content;
    ContentIs(s, file, codec);
  }

  /** And zeros everywhere else. */
  lemma ImageGaps(bytes: seq<byte>, m: Module, file: File, codec: Codec, i: nat)
    requires m.Ordered() && m.Available(file, codec) && bytes == m.Image(file, codec) && i < |bytes|
    requires !(m.text.dst <= i < m.text.dst + m.text.size) && !(m.ro.dst <= i < m.ro.dst + m.ro.size)
    requires !(m.rw.dst <= i < m.rw.dst + m.rw.size)
    ensures |bytes| == m.rw.dst + m.rw.size + m.bssSize && bytes[i] == 0
  {
    var a, t := Zeros(m.text.dst), m.text.Content(file, codec).value;
    var b, o := Zeros(m.ro.dst - m.text.End()), m.ro.Content(file, codec).value;
    var c, w := Zeros(m.rw.dst - m.ro.End()), m.rw.Content(file, codec).value;
    hide Segment.Content;
    assert bytes == a + t + b + o + c + w + Zeros(m.bssSize);
  }

  lemma ImageParts(bytes: seq<byte>, m: Module, file: File, codec: Codec)
    requires m.Ordered() && m.Available(file, codec) && bytes == m.Image(file, codec)
    ensures m.text.End() <= m.ro.dst && m.ro.End() <= m.rw.dst && m.rw.End() <= |bytes|
    ensures bytes[m.text.dst..m.text.dst + m.text.size] == m.text.Content(file, codec).value
    ensures bytes[m.ro.dst..m.ro.dst + m.ro.size] == m.ro.Content(file, codec).value
    ensures bytes[m.rw.dst..m.rw.dst + m.rw.size] == m.rw.Content(file, codec).value
  {
    ImageConcat(m, file, codec);
    hide Segment.Content, Zeros, Module.Image;
    OfSeven(Zeros(m.text.dst), m.text.Content(file, codec).value,
            Zeros(m.ro.dst - m.text.End()), m.ro.Content(file, codec).value,
            Zeros(m.rw.dst - m.ro.End()), m.rw.Content(file, codec).value, Zeros(m.bssSize));
  }

  /** The second, fourth and sixth of seven pieces. */
  lemma OfSeven(a: seq<byte>, t: seq<byte>, b: seq<byte>, o: seq<byte>, c: seq<byte>, w: seq<byte>, d: seq<byte>)
    ensures var all := a + t + b + o + c + w + d;
            var i := |a| + |t| + |b|;
            var j := i + |o| + |c|;
            && all[|a|..|a| + |t|] == t && all[i..i + |o|] == o && all[j..j + |w|] == w
            && |all| == j + |w| + |d|
  {
    Middle(a, t, b);
    Longer(a + t + b, o, |a|, |a| + |t|);
    Longer(a + t + b + o, c, |a|, |a| + |t|);
    Longer(a + t + b + o + c, w, |a|, |a| + |t|);
    Longer(a + t + b + o + c + w, d, |a|, |a| + |t|);
    Middle(a + t + b, o, c);
    Longer(a + t + b + o + c, w, |a + t + b|, |a + t + b + o|);
    Longer(a + t + b + o + c + w, d, |a + t + b|, |a + t + b + o|);
    Middle(a + t + b + o + c, w, d);
  }

  lemma ImageConcat(m: Module, file: File, codec: Codec)
    requires m.Ordered() && m.Available(file, codec)
    ensures m.Image(file, codec)
         == Zeros(m.text.dst) + m.text.Content(file, codec).value
            + Zeros(m.ro.dst - m.text.End()) + m.ro.Content(file, codec).value
            + Zeros(m.rw.dst - m.ro.End()) + m.rw.Content(file, codec).value
            + Zeros(m.bssSize)
  {
  }

  lemma Middle(p: seq<byte>, q: seq<byte>, r: seq<byte>)
    ensures (p + q + r)[|p|..|p| + |q|] == q
  {
  }

  lemma Longer(p: seq<byte>, q: seq<byte>, i: nat, j: nat)
    requires i <= j <= |p|
    ensures (p + q)[i..j] == p[i..j]
  {
  }

  function HeaderOf(m: Module): NsoHeader {
    NsoHeader(m.text.dst, m.text.size, m.ro.dst, m.ro.size, m.rw.dst, m.rw.size, m.bssSize)
  }

  /** The mapping that the layout reserves for a module has space for its segments exactly when each of their
      ends is below 4 GB, or is at 4 GB while another one lies in the last page. */
  lemma LayoutFitsModule(m: Module)
    ensures m.InsideMapping(NsoSize(HeaderOf(m))) <==> forall k | 0 <= k < 3 :: ExtentOk(HeaderOf(m), k)
  {
    hide NsoSize, ExtentOk;
    var h := HeaderOf(m);
    ModuleCoversSegments(h);
    assert Extents(h)[0] == m.text.End() && Extents(h)[1] == m.ro.End() && Extents(h)[2] == m.rw.End() + m.bssSize;
  }
}
