/** `DecideAddressSpaceLayout`: where the modules of a process and its argument block are mapped. */
module ProcessLayout {
  import opened MachineInts

  type U32 = x: int | 0 <= x < 0x1_0000_0000

  /** The segment fields of an NSO header that decide the extent of the module. */
  datatype NsoHeader = NsoHeader(textDst: U32, textSize: U32, roDst: U32, roSize: U32,
                                 rwDst: U32, rwSize: U32, bssSize: U32)

  const NSO_COUNT := 13
  const PAGE := 0x1000
  const MEMORY_BLOCK_UNIT := 0x20_0000
  const ARGUMENT_SIZE_MAX := 0x8000

  function AlignUp(x: nat): (r: nat)
    ensures x <= r < x + PAGE && r % PAGE == 0
  {
    (x + (PAGE - 1)) / PAGE * PAGE
  }

  // The segment ends are computed in 32 bits.

  function TextEnd(h: NsoHeader): nat { WrapU32(h.textDst + h.textSize) }

  function RoEnd(h: NsoHeader): nat { WrapU32(h.roDst + h.roSize) }

  function BssEnd(h: NsoHeader): nat { WrapU32(h.rwDst + h.rwSize + h.bssSize) }

  function NsoSize(h: NsoHeader): (r: nat)
    ensures r % PAGE == 0 && r <= 0x1_0000_0000
  {
    AlignUp(Max(Max(TextEnd(h), RoEnd(h)), BssEnd(h)))
  }

  function ArgsSize(argsSize: nat): (r: nat)
    ensures r % PAGE == 0 && r > 0
  {
    AlignUp(2 * argsSize + ARGUMENT_SIZE_MAX + 8)
  }

  /** A module's size in pages is that of its furthest 32-bit end. */
  lemma NsoSizeIs(h: NsoHeader)
    ensures var text, ro := (h.textDst + h.textSize) % 0x1_0000_0000, (h.roDst + h.roSize) % 0x1_0000_0000;
            var rw := (h.rwDst + h.rwSize + h.bssSize) % 0x1_0000_0000;
            && NsoSize(h) % 0x1000 == 0 && text <= NsoSize(h) && ro <= NsoSize(h) && rw <= NsoSize(h)
            && (NsoSize(h) < text + 0x1000 || NsoSize(h) < ro + 0x1000 || NsoSize(h) < rw + 0x1000)
  {
    hide AlignUp;
  }

  /** The argument block has room for twice the arguments, 32 KB and two words, in pages. */
  lemma ArgsSizeIs(argsSize: nat)
    ensures ArgsSize(argsSize) % 0x1000 == 0
    ensures 2 * argsSize + 0x8008 <= ArgsSize(argsSize) < 2 * argsSize + 0x9008
  {
    hide AlignUp;
  }

  // ---------- Regions ----------

  datatype Region = Region(start: nat, size: nat)
  {
    predicate Contains(a: int) { start <= a < start + size }
  }

  /** The regions follow each other without a gap from `start` to `end`. */
  predicate Chain(rs: seq<Region>, start: nat, end: nat) {
    if rs == [] then start == end
    else Chain(rs[..|rs| - 1], start, rs[|rs| - 1].start) && rs[|rs| - 1].start + rs[|rs| - 1].size == end
  }

  lemma {:induction false} ChainOrdered(rs: seq<Region>, start: nat, end: nat)
    requires Chain(rs, start, end)
    ensures start <= end
    ensures forall i | 0 <= i < |rs| :: start <= rs[i].start && rs[i].start + rs[i].size <= end
    ensures forall i, j | 0 <= i < j < |rs| :: rs[i].start + rs[i].size <= rs[j].start
  {
    if rs != [] {
      var front, last := rs[..|rs| - 1], rs[|rs| - 1];
      ChainOrdered(front, start, last.start);
      forall i | 0 <= i < |rs|
        ensures start <= rs[i].start && rs[i].start + rs[i].size <= end
      {
        if i < |front| { assert rs[i] == front[i]; }
      }
      forall i, j | 0 <= i < j < |rs|
        ensures rs[i].start + rs[i].size <= rs[j].start
      {
        assert rs[i] == front[i];
        if j < |front| { assert rs[j] == front[j]; }
      }
    }
  }

  lemma {:induction false} ChainCovers(rs: seq<Region>, start: nat, end: nat, a: int) returns (i: nat)
    requires Chain(rs, start, end) && start <= a < end
    ensures i < |rs| && rs[i].Contains(a)
  {
    var last := rs[|rs| - 1];
    if a < last.start {
      i := ChainCovers(rs[..|rs| - 1], start, last.start, a);
    } else {
      i := |rs| - 1;
    }
  }

  /** A chain tiles its range: every address in it lies in exactly one region, no other address in any. */
  lemma ChainTiles(rs: seq<Region>, start: nat, end: nat, a: int)
    requires Chain(rs, start, end)
    ensures start <= a < end <==> exists i :: 0 <= i < |rs| && rs[i].Contains(a)
    ensures forall i, j | 0 <= i < |rs| && 0 <= j < |rs| && rs[i].Contains(a) && rs[j].Contains(a) :: i == j
  {
    ChainOrdered(rs, start, end);
    if start <= a < end { var i := ChainCovers(rs, start, end, a); }
  }

  // ---------- The intended layout ----------

  /** What decides the layout: the headers, which modules exist, and the argument size (0 for none). */
  datatype Program = Program(headers: seq<NsoHeader>, has: seq<bool>, argsSize: nat)
  {
    predicate Valid() { |headers| == NSO_COUNT && |has| == NSO_COUNT }

    /** Whether an earlier module than number `i` exists. */
    predicate AnyBefore(i: nat)
      requires i <= |has|
    {
      exists k :: 0 <= k < i && has[k]
    }

    /** The argument block follows the first module. */
    predicate ArgsAfter(i: nat)
      requires i < |has|
    {
      has[i] && !AnyBefore(i) && argsSize > 0
    }

    /** Bytes mapped for module `i` and, if it follows, the argument block. */
    function SizeAt(i: nat): nat
      requires Valid() && i < NSO_COUNT
    {
      (if has[i] then NsoSize(headers[i]) else 0) + (if ArgsAfter(i) then ArgsSize(argsSize) else 0)
    }

    /** Bytes mapped for the first `n` modules and the argument block among them. */
    function Total(n: nat): (r: nat)
      requires Valid() && n <= NSO_COUNT
      ensures !AnyBefore(n) ==> r == 0
    {
      if n == 0 then 0 else Total(n - 1) + SizeAt(n - 1)
    }

    /** The number of the first module, after which the arguments go. */
    function First(n: nat): (i: nat)
      requires n <= |has| && AnyBefore(n)
      ensures i < n && has[i] && !AnyBefore(i)
    {
      if AnyBefore(n - 1) then First(n - 1) else n - 1
    }

    predicate HasArgs(n: nat)
      requires n <= |has|
    {
      AnyBefore(n) && argsSize > 0
    }
  }

  /** Where the process maps things: address and size by module number, and the argument block. */
  datatype Layout = Layout(nsoAddress: seq<nat>, nsoSize: seq<nat>, argsAddress: nat, argsSize: nat)
  {
    predicate Valid() { |nsoAddress| == NSO_COUNT && |nsoSize| == NSO_COUNT }
  }

  /** The mapped regions up to module `n`, in address order. */
  function Mapped(p: Program, l: Layout, n: nat): seq<Region>
    requires p.Valid() && l.Valid() && n <= NSO_COUNT
  {
    if n == 0 then []
    else
      Mapped(p, l, n - 1)
      + (if p.has[n - 1] then [Region.Region(l.nsoAddress[n - 1], l.nsoSize[n - 1])] else [])
      + (if p.ArgsAfter(n - 1) then [Region.Region(l.argsAddress, l.argsSize)] else [])
  }

  /** Module addresses when the first `n` modules lie one after the other, the first `slid` of them from
      `base` on and the others still from 0 on; 0 for modules that do not exist. */
  function Addresses(p: Program, n: nat, base: nat, slid: nat): (s: seq<nat>)
    requires p.Valid() && n <= NSO_COUNT
    ensures |s| == NSO_COUNT
  {
    seq(NSO_COUNT, k requires 0 <= k < NSO_COUNT =>
      if k < n && p.has[k] then p.Total(k) + (if k < slid then base else 0) else 0)
  }

  function Sizes(p: Program, n: nat): (s: seq<nat>)
    requires p.Valid() && n <= NSO_COUNT
    ensures |s| == NSO_COUNT
  {
    seq(NSO_COUNT, k requires 0 <= k < NSO_COUNT => if k < n && p.has[k] then NsoSize(p.headers[k]) else 0)
  }

  /** Modules are placed one after the other from `base` on; `argsAddress` is left open. */
  ghost predicate PlacesModules(p: Program, l: Layout, base: nat)
    requires p.Valid()
  {
    && l.nsoAddress == Addresses(p, NSO_COUNT, base, NSO_COUNT)
    && l.nsoSize == Sizes(p, NSO_COUNT)
    && l.argsSize == if p.HasArgs(NSO_COUNT) then ArgsSize(p.argsSize) else 0
  }

  /** The address right behind the first module. */
  function BehindFirst(p: Program, base: nat): nat
    requires p.Valid() && p.HasArgs(NSO_COUNT)
  {
    base + NsoSize(p.headers[p.First(NSO_COUNT)])
  }

  lemma {:induction false} FirstIsStable(p: Program, n: nat, i: nat)
    requires n <= |p.has| && i < n && p.ArgsAfter(i)
    ensures p.First(n) == i
  {
    if n - 1 > i { FirstIsStable(p, n - 1, i); }
  }

  /** With the arguments right behind the first module, the regions are one chain. */
  lemma {:induction false} MappedIsChain(p: Program, l: Layout, base: nat, n: nat)
    requires p.Valid() && PlacesModules(p, l, base) && n <= NSO_COUNT
    requires p.HasArgs(NSO_COUNT) ==> l.argsAddress == BehindFirst(p, base)
    ensures Chain(Mapped(p, l, n), base, base + p.Total(n))
  {
    hide NsoSize, ArgsSize, Program.AnyBefore, Program.First, Program.Total, PlacesModules, Chain, Mapped;
    if n == 0 {
      EmptyChain(base);
      NothingMapped(p, l, base);
    } else {
      MappedIsChain(p, l, base, n - 1);
      ModuleAt(p, l, base, n - 1);
      MappedStep(p, l, n);
      var front := Mapped(p, l, n - 1);
      var nso, args := Region.Region(l.nsoAddress[n - 1], l.nsoSize[n - 1]), Region.Region(l.argsAddress, l.argsSize);
      if p.has[n - 1] {
        ChainSnoc(front, nso, base);
        if p.ArgsAfter(n - 1) {
          ArgsFollow(p, n - 1);
          ChainSnoc(front + [nso], args, base);
        }
      }
    }
  }

  lemma NothingMapped(p: Program, l: Layout, base: nat)
    requires p.Valid() && PlacesModules(p, l, base)
    ensures l.Valid() && Mapped(p, l, 0) == [] && p.Total(0) == 0
  {
  }

  lemma MappedStep(p: Program, l: Layout, n: nat)
    requires p.Valid() && l.Valid() && 0 < n <= NSO_COUNT
    ensures var front := Mapped(p, l, n - 1);
            var nso := Region.Region(l.nsoAddress[n - 1], l.nsoSize[n - 1]);
            && (!p.has[n - 1] ==> Mapped(p, l, n) == front && p.Total(n) == p.Total(n - 1))
            && (p.has[n - 1] && !p.ArgsAfter(n - 1) ==>
                  && Mapped(p, l, n) == front + [nso]
                  && p.Total(n) == p.Total(n - 1) + NsoSize(p.headers[n - 1]))
            && (p.ArgsAfter(n - 1) ==>
                  && p.has[n - 1]
                  && Mapped(p, l, n) == front + [nso] + [Region.Region(l.argsAddress, l.argsSize)]
                  && p.Total(n) == p.Total(n - 1) + NsoSize(p.headers[n - 1]) + ArgsSize(p.argsSize))
  {
    hide NsoSize, ArgsSize, Program.AnyBefore;
  }

  lemma EmptyChain(base: nat)
    ensures Chain([], base, base)
  {
  }

  lemma ModuleAt(p: Program, l: Layout, base: nat, i: nat)
    requires p.Valid() && PlacesModules(p, l, base) && i < NSO_COUNT
    ensures l.Valid()
    ensures p.has[i] ==> l.nsoAddress[i] == base + p.Total(i) && l.nsoSize[i] == NsoSize(p.headers[i])
    ensures p.HasArgs(NSO_COUNT) ==> l.argsSize == ArgsSize(p.argsSize)
  {
    hide NsoSize, ArgsSize;
  }

  lemma ArgsFollow(p: Program, i: nat)
    requires p.Valid() && i < NSO_COUNT && p.ArgsAfter(i)
    ensures p.HasArgs(NSO_COUNT) && p.First(NSO_COUNT) == i && p.Total(i) == 0
  {
    FirstIsStable(p, NSO_COUNT, i);
  }

  lemma ChainSnoc(rs: seq<Region>, r: Region, start: nat)
    requires Chain(rs, start, r.start)
    ensures Chain(rs + [r], start, r.start + r.size)
  {
    assert (rs + [r])[..|rs|] == rs;
  }

  /** If the regions are one chain, the arguments are right behind the first module. */
  lemma {:induction false} ChainPlacesArgs(p: Program, l: Layout, base: nat, n: nat, end: nat)
    requires p.Valid() && PlacesModules(p, l, base) && n <= NSO_COUNT && p.HasArgs(n)
    requires Chain(Mapped(p, l, n), base, end)
    ensures l.argsAddress == BehindFirst(p, base)
  {
    hide NsoSize, ArgsSize;
    var rs := Mapped(p, l, n);
    if p.ArgsAfter(n - 1) {
      FirstIsStable(p, NSO_COUNT, n - 1);
      var front := Mapped(p, l, n - 1);
      var nso := Region.Region(l.nsoAddress[n - 1], l.nsoSize[n - 1]);
      assert rs[..|rs| - 1] == front + [nso];
      assert (front + [nso])[..|front|] == front;
      assert p.Total(n - 1) == 0;
    } else if p.has[n - 1] {
      assert rs[..|rs| - 1] == Mapped(p, l, n - 1);
      ChainPlacesArgs(p, l, base, n - 1, rs[|rs| - 1].start);
    } else {
      assert rs == Mapped(p, l, n - 1);
      ChainPlacesArgs(p, l, base, n - 1, end);
    }
  }

  // ---------- The code ----------

  datatype Result = Success | OutOfMemory

  /** The outputs `ProcessInfo` and the code fields of `CreateProcessParameter`. */
  class ProcessInfo {
    var argsAddress: nat
    var argsSize: nat
    const nsoAddress: array<nat>
    const nsoSize: array<nat>
    var codeAddress: nat
    var codePages: nat

    constructor ()
      ensures nsoAddress.Length == nsoSize.Length == NSO_COUNT && nsoAddress != nsoSize
      ensures fresh(nsoAddress) && fresh(nsoSize)
    {
      argsAddress, argsSize, codeAddress, codePages := 0, 0, 0, 0;
      nsoAddress := new nat[NSO_COUNT](_ => 0);
      nsoSize := new nat[NSO_COUNT](_ => 0);
    }

    ghost predicate Valid()
      reads this
    {
      nsoAddress.Length == nsoSize.Length == NSO_COUNT && nsoAddress != nsoSize
    }

    ghost function AsLayout(): Layout
      reads this, nsoAddress, nsoSize
    {
      Layout.Layout(nsoAddress[..], nsoSize[..], argsAddress, argsSize)
    }

    method Clear()
      requires Valid()
      modifies this`argsAddress, this`argsSize, nsoAddress, nsoSize
      ensures argsAddress == argsSize == 0
      ensures nsoAddress[..] == nsoSize[..] == seq(NSO_COUNT, _ => 0)
    {
      argsAddress, argsSize := 0, 0;
      for i := 0 to NSO_COUNT
        invariant argsAddress == argsSize == 0
        invariant forall k | 0 <= k < i :: nsoAddress[k] == nsoSize[k] == 0
      {
        nsoAddress[i], nsoSize[i] := 0, 0;
      }
    }

    /** The first `n` modules and the arguments among them have offsets from zero. */
    ghost predicate Placed(p: Program, n: nat)
      requires p.Valid() && n <= NSO_COUNT
      reads this, nsoAddress, nsoSize
    {
      && nsoAddress[..] == Addresses(p, n, 0, 0) && nsoSize[..] == Sizes(p, n)
      && argsSize == (if p.HasArgs(n) then ArgsSize(p.argsSize) else 0)
      && argsAddress == (if p.HasArgs(n) then NsoSize(p.headers[p.First(n)]) else 0)
    }

    method CalculateOffsets(p: Program) returns (total: nat)
      requires Valid() && p.Valid()
      modifies this`argsAddress, this`argsSize, nsoAddress, nsoSize
      ensures total == p.Total(NSO_COUNT)
      ensures Placed(p, NSO_COUNT)
    {
      hide ArgsSize, NsoSize, AlignUp, Addresses, Sizes, Program.Total, Program.First, Program.AnyBefore;
      Clear();
      total := 0;
      NothingPlaced(p);
      for i := 0 to NSO_COUNT
        invariant total == p.Total(i)
        invariant Placed(p, i)
      {
        PlaceNext(p, i);
        if p.has[i] {
          nsoAddress[i] := total;
          var size := ModuleSize(p.headers[i]);
          nsoSize[i] := size;
          total := total + size;
          if p.argsSize != 0 && argsSize == 0 {
            argsAddress := total;
            argsSize := 2 * p.argsSize + ARGUMENT_SIZE_MAX + 2 * 4;
            argsSize := AlignUp(argsSize);
            total := total + argsSize;
          }
        }
      }
    }

    method ModuleSize(h: NsoHeader) returns (size: nat)
      ensures size == NsoSize(h)
    {
      size := TextEnd(h);
      size := Max(size, RoEnd(h));
      size := Max(size, BssEnd(h));
      size := AlignUp(size);
    }

    /** Lays the program out in the ASLR region; `slideUnits` is the random number of 2 MB units. */
    method DecideAddressSpaceLayout(p: Program, aslr: Region, enableAslr: bool, slideUnits: nat) returns (r: Result)
      requires Valid() && p.Valid()
      requires p.Total(NSO_COUNT) <= aslr.size ==>
                 slideUnits <= (aslr.size - p.Total(NSO_COUNT)) / MEMORY_BLOCK_UNIT
      modifies this, nsoAddress, nsoSize
      ensures r == if p.Total(NSO_COUNT) <= aslr.size then Success else OutOfMemory
      ensures r == Success ==>
                && codeAddress == aslr.start + (if enableAslr then slideUnits * MEMORY_BLOCK_UNIT else 0)
                && codePages * PAGE == p.Total(NSO_COUNT)
                && codeAddress + codePages * PAGE <= aslr.start + aslr.size
                && PlacesModules(p, AsLayout(), codeAddress)
                && argsAddress == (if p.HasArgs(NSO_COUNT) && BehindFirst(p, 0) != 0
                                   then BehindFirst(p, codeAddress) else 0)
    {
      hide NsoSize, ArgsSize, Program.Total, Program.First, Program.AnyBefore;
      var total := CalculateOffsets(p);
      if total > aslr.size { return OutOfMemory; }
      var slide := 0;
      var free := aslr.size - total;
      if enableAslr {
        slide := slideUnits * MEMORY_BLOCK_UNIT;
      }
      var start := aslr.start + slide;
      Relocate(p, start);
      codeAddress := start;
      TotalIsAligned(p, NSO_COUNT);
      codePages := total / PAGE;
      r := Success;
    }

    method Relocate(p: Program, start: nat)
      requires Valid() && p.Valid() && Placed(p, NSO_COUNT)
      modifies this`argsAddress, nsoAddress
      ensures nsoAddress[..] == Addresses(p, NSO_COUNT, start, NSO_COUNT)
      ensures argsAddress == if old(argsAddress) != 0 then old(argsAddress) + start else 0
    {
      hide NsoSize, ArgsSize, Program.Total, Program.First, Program.AnyBefore;
      NoneSlid(p, start);
      for i := 0 to NSO_COUNT
        invariant nsoAddress[..] == Addresses(p, NSO_COUNT, start, i)
        invariant argsAddress == old(argsAddress)
      {
        if p.has[i] {
          assert nsoAddress[i] == nsoAddress[..][i];
          nsoAddress[i] := nsoAddress[i] + start;
        }
        assert nsoAddress[..] == Addresses(p, NSO_COUNT, start, i + 1);
      }
      if argsAddress != 0 { argsAddress := argsAddress + start; }
    }
  }

  lemma NothingPlaced(p: Program)
    requires p.Valid()
    ensures Addresses(p, 0, 0, 0) == Sizes(p, 0) == seq(NSO_COUNT, _ => 0)
    ensures p.Total(0) == 0 && !p.HasArgs(0)
  {
  }

  lemma NoneSlid(p: Program, start: nat)
    requires p.Valid()
    ensures Addresses(p, NSO_COUNT, start, 0) == Addresses(p, NSO_COUNT, 0, 0)
  {
  }

  /** What placing module `i` changes. */
  lemma PlaceNext(p: Program, i: nat)
    requires p.Valid() && i < NSO_COUNT
    ensures Addresses(p, i + 1, 0, 0) ==
            if p.has[i] then Addresses(p, i, 0, 0)[i := p.Total(i)] else Addresses(p, i, 0, 0)
    ensures Sizes(p, i + 1) == if p.has[i] then Sizes(p, i)[i := NsoSize(p.headers[i])] else Sizes(p, i)
    ensures p.Total(i + 1) == p.Total(i) + (if p.has[i] then NsoSize(p.headers[i]) else 0)
                              + (if p.ArgsAfter(i) then ArgsSize(p.argsSize) else 0)
    ensures p.HasArgs(i + 1) == (p.HasArgs(i) || p.ArgsAfter(i))
    ensures p.ArgsAfter(i) == (p.has[i] && p.argsSize > 0 && !p.HasArgs(i))
    ensures p.HasArgs(i) ==> p.First(i + 1) == p.First(i)
    ensures p.ArgsAfter(i) ==> p.First(i + 1) == i && p.Total(i) == 0
    ensures ArgsSize(p.argsSize) == AlignUp(2 * p.argsSize + ARGUMENT_SIZE_MAX + 8)
  {
    hide NsoSize;
  }

  lemma AddAligned(x: nat, y: nat)
    requires x % PAGE == 0 && y % PAGE == 0
    ensures (x + y) % PAGE == 0
  {
  }

  lemma SizeAtIsAligned(p: Program, i: nat)
    requires p.Valid() && i < NSO_COUNT
    ensures p.SizeAt(i) % PAGE == 0
  {
    hide NsoSize, ArgsSize;
    AddAligned(NsoSize(p.headers[i]), ArgsSize(p.argsSize));
  }

  lemma {:induction false} TotalIsAligned(p: Program, n: nat)
    requires p.Valid() && n <= NSO_COUNT
    ensures p.Total(n) % PAGE == 0
  {
    hide Program.SizeAt;
    if n > 0 {
      TotalIsAligned(p, n - 1);
      SizeAtIsAligned(p, n - 1);
      AddAligned(p.Total(n - 1), p.SizeAt(n - 1));
    }
  }

  // ---------- What the layout promises ----------

  /** The mapped regions tile the code range exactly when the first module is not empty or there are no
      arguments: the address of the arguments is relocated only if it is not zero. */
  lemma LayoutTiles(p: Program, l: Layout, base: nat)
    requires p.Valid() && PlacesModules(p, l, base)
    requires l.argsAddress == if p.HasArgs(NSO_COUNT) && BehindFirst(p, 0) != 0 then BehindFirst(p, base) else 0
    ensures Chain(Mapped(p, l, NSO_COUNT), base, base + p.Total(NSO_COUNT)) <==>
            (p.HasArgs(NSO_COUNT) ==> NsoSize(p.headers[p.First(NSO_COUNT)]) > 0 || base == 0)
  {
    hide NsoSize, ArgsSize, Chain, Mapped, Program.Total, Program.First, Program.AnyBefore;
    if Chain(Mapped(p, l, NSO_COUNT), base, base + p.Total(NSO_COUNT)) && p.HasArgs(NSO_COUNT) {
      ChainPlacesArgs(p, l, base, NSO_COUNT, base + p.Total(NSO_COUNT));
    }
    if p.HasArgs(NSO_COUNT) ==> NsoSize(p.headers[p.First(NSO_COUNT)]) > 0 || base == 0 {
      MappedIsChain(p, l, base, NSO_COUNT);
    }
  }

  /** Everything is page-aligned when the base is. */
  lemma LayoutIsAligned(p: Program, l: Layout, base: nat, i: nat)
    requires p.Valid() && PlacesModules(p, l, base) && base % PAGE == 0 && i < NSO_COUNT && p.has[i]
    ensures l.nsoAddress[i] % PAGE == 0 && l.nsoSize[i] % PAGE == 0
    ensures p.HasArgs(NSO_COUNT) ==> BehindFirst(p, base) % PAGE == 0 && l.argsSize % PAGE == 0
  {
    hide NsoSize, ArgsSize, Program.Total, Program.First, Program.AnyBefore;
    TotalIsAligned(p, i);
    AddAligned(p.Total(i), base);
    assert l.nsoAddress[i] == p.Total(i) + base && l.nsoSize[i] == NsoSize(p.headers[i]);
    if p.HasArgs(NSO_COUNT) { AddAligned(base, NsoSize(p.headers[p.First(NSO_COUNT)])); }
  }

  /** The extents the segments really have. */
  function Extents(h: NsoHeader): seq<nat> {
    [h.textDst + h.textSize, h.roDst + h.roSize, h.rwDst + h.rwSize + h.bssSize]
  }

  /** An extent does not wrap in 32 bits, or ends exactly at 4 GB while another segment fills the last page. */
  predicate ExtentOk(h: NsoHeader, k: nat)
    requires k < 3
  {
    || Extents(h)[k] < 0x1_0000_0000
    || (Extents(h)[k] == 0x1_0000_0000
        && exists m :: 0 <= m < 3 && WrapU32(Extents(h)[m]) > 0x1_0000_0000 - PAGE)
  }

  /** The mapping of a module covers all its segments exactly when each of their ends is below 4 GB, or is at
      4 GB while another one lies in the last page. */
  lemma ModuleCoversSegments(h: NsoHeader)
    ensures (forall k | 0 <= k < 3 :: Extents(h)[k] <= NsoSize(h)) <==> (forall k | 0 <= k < 3 :: ExtentOk(h, k))
  {
    var m := Max(Max(TextEnd(h), RoEnd(h)), BssEnd(h));
    forall k | 0 <= k < 3
      ensures Extents(h)[k] <= NsoSize(h) <==> ExtentOk(h, k)
    {
      ExtentCovered(h, k, m);
    }
  }

  lemma ExtentCovered(h: NsoHeader, k: nat, m: nat)
    requires k < 3 && m == Max(Max(TextEnd(h), RoEnd(h)), BssEnd(h))
    ensures Extents(h)[k] <= AlignUp(m) <==> ExtentOk(h, k)
  {
    hide WrapU32, AlignUp;
    var e := Extents(h);
    LastPage(m);
    assert WrapU32(e[0]) <= m && WrapU32(e[1]) <= m && WrapU32(e[2]) <= m;
    assert m == WrapU32(e[0]) || m == WrapU32(e[1]) || m == WrapU32(e[2]);
    if e[k] < 0x1_0000_0000 { NoWrap(e[k]); }
  }

  lemma NoWrap(x: nat)
    requires x < 0x1_0000_0000
    ensures WrapU32(x) == x
  {
  }

  lemma LastPage(m: nat)
    requires m < 0x1_0000_0000
    ensures AlignUp(m) == 0x1_0000_0000 <==> m > 0x1_0000_0000 - PAGE
    ensures AlignUp(m) <= 0x1_0000_0000
  {
  }
}
