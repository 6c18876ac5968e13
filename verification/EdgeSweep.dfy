/** The scan over sorted edges with a linked list of the edges that touch the current row. */
module EdgeSweep {
  import opened MachineInts
  import opened EdgeSort
  import opened RasterHeap

  /** `stbtt__active_edge` without its first word, the link. */
  datatype ActiveEdge = ActiveEdge(fx: real, fdx: real, fdy: real, direction: real, sy: real, ey: real)

  /** `sizeof(stbtt__active_edge)`. */
  const NODE_SIZE := 32

  // ---------- What the list holds ----------

  function Slope(e: Edge): real
    requires e.y0 != e.y1
  {
    (e.x1 - e.x0) / (e.y1 - e.y0)
  }

  /** `stbtt__new_active`. */
  function NewNode(e: Edge, offX: int, start: real): ActiveEdge
    requires e.y0 != e.y1
  {
    var dxdy := Slope(e);
    ActiveEdge(e.x0 + dxdy * (start - e.y0) - offX as real, dxdy, if dxdy != 0.0 then 1.0 / dxdy else 0.0,
               if e.invert then 1.0 else -1.0, e.y0, e.y1)
  }

  /** The top of a row. */
  function Top(offY: int, row: nat): real { (offY + row) as real }

  /** On the first row an end above the bitmap is moved to its top, unless the bitmap starts at zero. */
  function Clamped(node: ActiveEdge, offY: int, row: nat): ActiveEdge {
    if row == 0 && offY != 0 && node.ey < Top(offY, row) then node.(ey := Top(offY, row)) else node
  }

  function RowNode(e: Edge, offX: int, offY: int, row: nat): ActiveEdge
    requires e.y0 != e.y1
  {
    Clamped(NewNode(e, offX, Top(offY, row)), offY, row)
  }

  /** Whether an edge that is not horizontal belongs on a row: it has started, and it starts in this row or
      reaches below its top. On the first row it may have ended above. */
  predicate Crosses(e: Edge, offY: int, row: nat) {
    && e.y0 != e.y1 && e.y0 <= Top(offY, row) + 1.0
    && (row == 0 || e.y0 > Top(offY, row) || e.y1 > Top(offY, row))
  }

  /** The list on a row: the crossing edges, last one first. */
  function Row(edges: seq<Edge>, offX: int, offY: int, row: nat): seq<ActiveEdge> {
    if edges == [] then []
    else
      var rest := Row(edges[..|edges| - 1], offX, offY, row);
      var e := edges[|edges| - 1];
      if Crosses(e, offY, row) then [RowNode(e, offX, offY, row)] + rest else rest
  }

  function Crossings(edges: seq<Edge>, offY: int, row: nat): nat {
    if edges == [] then 0
    else Crossings(edges[..|edges| - 1], offY, row) + (if Crosses(edges[|edges| - 1], offY, row) then 1 else 0)
  }

  /** Each crossing edge is in the list, at the place that counts the crossing edges after it, and the list
      holds nothing else. */
  lemma {:induction false} RowHoldsEachCrossingOnce(edges: seq<Edge>, offX: int, offY: int, row: nat, i: nat)
    requires i < |edges| && Crosses(edges[i], offY, row)
    ensures var list := Row(edges, offX, offY, row);
            && |list| == Crossings(edges, offY, row)
            && Crossings(edges[..i], offY, row) < |list|
            && list[|list| - 1 - Crossings(edges[..i], offY, row)] == RowNode(edges[i], offX, offY, row)
  {
    hide Crosses, RowNode;
    var front := edges[..|edges| - 1];
    RowLength(edges, offX, offY, row);
    RowLength(front, offX, offY, row);
    if i < |edges| - 1 {
      RowHoldsEachCrossingOnce(front, offX, offY, row, i);
      assert front[..i] == edges[..i];
    }
  }

  lemma {:induction false} RowLength(edges: seq<Edge>, offX: int, offY: int, row: nat)
    ensures |Row(edges, offX, offY, row)| == Crossings(edges, offY, row)
  {
    hide Crosses, RowNode;
    if edges != [] { RowLength(edges[..|edges| - 1], offX, offY, row); }
  }

  /** A node's x is where the line through its edge meets the top of the row. */
  lemma NodeIsOnItsEdge(e: Edge, offX: int, offY: int, row: nat)
    requires e.y0 != e.y1
    ensures var x := RowNode(e, offX, offY, row).fx + offX as real;
            (x - e.x0) * (e.y1 - e.y0) == (e.x1 - e.x0) * (Top(offY, row) - e.y0)
  {
    SlopeTimesHeight((e.x1 - e.x0), (e.y1 - e.y0), Top(offY, row) - e.y0);
  }

  lemma SlopeTimesHeight(dx: real, dy: real, t: real)
    requires dy != 0.0
    ensures (dx / dy) * t * dy == dx * t
  {
    var s := dx / dy;
    assert s * dy == dx;
    assert s * t * dy == (s * dy) * t;
  }

  // ---------- From one row to the next ----------

  /** What the deletion loop leaves. */
  function Unended(s: seq<ActiveEdge>, top: real): seq<ActiveEdge> {
    if s == [] then [] else (if s[0].ey <= top then [] else [s[0]]) + Unended(s[1..], top)
  }

  /** What the advancing loop leaves. */
  function Stepped(z: ActiveEdge): ActiveEdge { z.(fx := z.fx + z.fdx) }

  function Advanced(s: seq<ActiveEdge>): (r: seq<ActiveEdge>)
    ensures |r| == |s|
  {
    seq(|s|, i requires 0 <= i < |s| => Stepped(s[i]))
  }

  /** No edge starts below `y`. */
  ghost predicate Started(edges: seq<Edge>, y: real) {
    forall i | 0 <= i < |edges| :: edges[i].y0 <= y
  }

  lemma SteppedNode(e: Edge, offX: int, offY: int, row: nat)
    requires e.y0 <= Top(offY, row) + 1.0 && Crosses(e, offY, row)
    ensures var z := Stepped(RowNode(e, offX, offY, row));
            && (z.ey <= Top(offY, row + 1) <==> !Crosses(e, offY, row + 1))
            && (Crosses(e, offY, row + 1) ==> z == RowNode(e, offX, offY, row + 1))
  {
    var dxdy, t := Slope(e), Top(offY, row) - e.y0;
    assert Top(offY, row + 1) == Top(offY, row) + 1.0;
    assert dxdy * (t + 1.0) == dxdy * t + dxdy;
  }

  /** Advancing the list and deleting what has ended gives the next row's list, up to the edges that start
      in that row. */
  lemma {:induction false} NextRow(edges: seq<Edge>, offX: int, offY: int, row: nat)
    requires Started(edges, Top(offY, row) + 1.0)
    ensures Unended(Advanced(Row(edges, offX, offY, row)), Top(offY, row + 1)) == Row(edges, offX, offY, row + 1)
  {
    if edges != [] {
      var front, e := edges[..|edges| - 1], edges[|edges| - 1];
      var rest := Row(front, offX, offY, row);
      NextRow(front, offX, offY, row);
      assert e.y0 <= Top(offY, row) + 1.0;
      hide Crosses, RowNode, Stepped, Row;
      if Crosses(e, offY, row) {
        SteppedNode(e, offX, offY, row);
        RowStep(edges, offX, offY, row);
        RowStep(edges, offX, offY, row + 1);
        var list := [RowNode(e, offX, offY, row)] + rest;
        assert Advanced(list)[1..] == Advanced(rest);
      } else {
        EndedStaysOut(e, offY, row);
        RowStep(edges, offX, offY, row);
        RowStep(edges, offX, offY, row + 1);
      }
    }
  }

  lemma EndedStaysOut(e: Edge, offY: int, row: nat)
    requires e.y0 <= Top(offY, row) + 1.0 && !Crosses(e, offY, row)
    ensures !Crosses(e, offY, row + 1)
  {
  }

  lemma RowStep(edges: seq<Edge>, offX: int, offY: int, row: nat)
    requires edges != []
    ensures var rest, e := Row(edges[..|edges| - 1], offX, offY, row), edges[|edges| - 1];
            && (Crosses(e, offY, row) ==> Row(edges, offX, offY, row) == [RowNode(e, offX, offY, row)] + rest)
            && (!Crosses(e, offY, row) ==> Row(edges, offX, offY, row) == rest)
  {
  }

  /** One turn of the insertion loop. */
  lemma RowInsert(edges: seq<Edge>, c: nat, offX: int, offY: int, row: nat)
    requires c < |edges|
    ensures var rest, e := Row(edges[..c], offX, offY, row), edges[c];
            && (Crosses(e, offY, row) ==> Row(edges[..c + 1], offX, offY, row) == [RowNode(e, offX, offY, row)] + rest)
            && (!Crosses(e, offY, row) ==> Row(edges[..c + 1], offX, offY, row) == rest)
  {
    RowStep(edges[..c + 1], offX, offY, row);
    assert edges[..c + 1][..c] == edges[..c];
  }

  /** Edges that start below the row do not show. */
  lemma {:induction false} RowIgnoresLater(edges: seq<Edge>, c: nat, offX: int, offY: int, row: nat)
    requires c <= |edges|
    requires forall i | c <= i < |edges| :: edges[i].y0 > Top(offY, row) + 1.0
    ensures Row(edges, offX, offY, row) == Row(edges[..c], offX, offY, row)
  {
    if c < |edges| {
      var front := edges[..|edges| - 1];
      RowIgnoresLater(front, c, offX, offY, row);
      assert front[..c] == edges[..c];
      RowStep(edges, offX, offY, row);
    } else {
      assert edges[..c] == edges;
    }
  }

  // ---------- The linked list ----------

  type Fields = map<Address, ActiveEdge>

  function Contents(nodes: seq<Address>, field: Fields): (s: seq<ActiveEdge>)
    requires forall i | 0 <= i < |nodes| :: nodes[i] in field
    ensures |s| == |nodes|
  {
    seq(|nodes|, i requires 0 <= i < |nodes| => field[nodes[i]])
  }

  /** Unlinking the node after `kept`. */
  lemma LinkedRemove(kept: seq<Address>, z: Address, rest: seq<Address>, head: Address, word: Memory)
    requires Linked(kept + [z] + rest, head, word) && Distinct(kept + [z] + rest)
    ensures z in word && word[z] == At(rest, 0)
    ensures kept == [] ==> Linked(rest, word[z], word)
    ensures kept != [] ==> Linked(kept + rest, head, word[kept[|kept| - 1] := word[z]])
  {
    var s, t := kept + [z] + rest, kept + rest;
    var m := |kept|;
    assert LinkAt(s, m, word);
    if kept == [] {
      assert s[1..] == rest;
      LinkedFirst(s, head, word);
    } else {
      var word' := word[kept[m - 1] := word[z]];
      forall i | 0 <= i < |t| ensures LinkAt(t, i, word') {
        if i < m {
          assert LinkAt(s, i, word) && t[i] == s[i] && At(t, i + 1) == (if i < m - 1 then s[i + 1] else word[z]);
          if i < m - 1 { assert s[i] != s[m - 1]; }
        } else {
          assert LinkAt(s, i + 1, word) && t[i] == s[i + 1] && At(t, i + 1) == At(s, i + 2);
          assert s[m - 1] != s[i + 1];
        }
      }
    }
  }

  lemma DistinctRemove(kept: seq<Address>, z: Address, rest: seq<Address>)
    requires Distinct(kept + [z] + rest)
    ensures Distinct(kept + rest) && z !in kept + rest
  {
    var s, t := kept + [z] + rest, kept + rest;
    forall i, j | 0 <= i < j < |t| ensures t[i] != t[j] {
      assert t[i] == s[if i < |kept| then i else i + 1] && t[j] == s[if j < |kept| then j else j + 1];
    }
    forall i | 0 <= i < |t| ensures t[i] != z {
      assert t[i] == s[if i < |kept| then i else i + 1] && s[|kept|] == z;
    }
  }

  class ActiveList {
    const heap: Heap
    var active: Address
    var field: Fields
    ghost var nodes: seq<Address>

    constructor (malloc: nat -> Address)
      requires Separates(malloc, ChunkBytes(NODE_SIZE))
      ensures Valid() && fresh(heap) && List() == [] && heap.malloc == malloc && Peak() == 0
    {
      heap := new Heap(malloc, NODE_SIZE);
      active, field, nodes := NULL, map[], [];
    }

    /** The blocks that the allocator considers in use are exactly those on the list. */
    ghost predicate Valid()
      reads this, heap
    {
      && heap.Valid(NODE_SIZE)
      && Linked(nodes, active, heap.word)
      && Distinct(nodes)
      && (forall a :: a in heap.live <==> a in nodes)
      && (forall i | 0 <= i < |nodes| :: nodes[i] in field)
      && heap.remaining < ChunkCount(NODE_SIZE)
    }

    /** How many blocks have ever been in use at once. */
    ghost function Peak(): nat
      reads this, heap
    {
      |nodes| + |heap.free|
    }

    ghost function List(): seq<ActiveEdge>
      requires Valid()
      reads this, heap
    {
      Contents(nodes, field)
    }

    /** Takes the node `z` after `prev` off the list and frees it. */
    method Delete(prev: Address, z: Address, ghost kept: seq<Address>, ghost rest: seq<Address>)
      requires Valid() && nodes == kept + [z] + rest
      requires prev == if kept == [] then NULL else kept[|kept| - 1]
      modifies this`active, this`field, this`nodes, heap
      ensures Valid() && nodes == kept + rest && Peak() == old(Peak())
      ensures forall i | 0 <= i < |nodes| :: nodes[i] in old(field) && field[nodes[i]] == old(field)[nodes[i]]
    {
      hide Linked, Distinct, Heap.Valid, ChunkCount;
      DistinctRemove(kept, z, rest);
      MembersOfList(kept, z, rest);
      Unlink(prev, z, kept, rest);
      field := field[z := field[z].(direction := 0.0)];
      ghost var word := heap.word;
      heap.Free(NODE_SIZE, z);
      nodes := kept + rest;
      LinkedFrame(nodes, active, word, heap.word);
    }

    /** The part of `Delete` that leads the list past `z`. */
    method Unlink(prev: Address, z: Address, ghost kept: seq<Address>, ghost rest: seq<Address>)
      requires Valid() && nodes == kept + [z] + rest
      requires prev == if kept == [] then NULL else kept[|kept| - 1]
      modifies this`active, heap`word
      ensures heap.Valid(NODE_SIZE) && Linked(kept + rest, active, heap.word)
    {
      hide Linked, Distinct, Heap.Valid, ChunkCount;
      MembersOfList(kept, z, rest);
      LinkedRemove(kept, z, rest, active, heap.word);
      LinkedIsNotNull(nodes, active, heap.word);
      if prev == NULL {
        active := heap.word[z];
        assert kept + rest == rest;
      } else {
        heap.Store(NODE_SIZE, prev, heap.word[z]);
      }
    }

    /** Takes the node `z` off, leaves the contents of the others, and finds the next one. */
    method DeleteNext(prev: Address, z: Address, ghost kept: seq<Address>, ghost later: seq<Address>)
      returns (next: Address)
      requires Valid() && nodes == kept + [z] + later
      requires prev == if kept == [] then NULL else kept[|kept| - 1]
      modifies this`active, this`field, this`nodes, heap
      ensures Valid() && nodes == kept + later && Peak() == old(Peak())
      ensures next == At(later, 0) && (next == NULL ==> later == [])
      ensures FieldsOf(kept, old(field)) && FieldsOf(kept, field)
      ensures FieldsOf(later, old(field)) && FieldsOf(later, field)
      ensures Contents(kept, field) == Contents(kept, old(field))
      ensures Contents(later, field) == Contents(later, old(field))
    {
      hide Linked, Distinct, Heap.Valid, Contents, ChunkCount;
      assert nodes[|kept|] == z && At(nodes, |kept| + 1) == At(later, 0);
      NodeAfter(nodes, |kept|, active, heap.word);
      next := heap.word[z];
      ghost var fields := field;
      Delete(prev, z, kept, later);
      SameContents(nodes, fields, field, kept, later);
      LinkedIsNotNull(nodes, active, heap.word);
      assert later != [] ==> nodes[|kept|] == later[0];
    }

    /** Deletes the edges that end at or above `top`. */
    method RemoveEnded(top: real)
      requires Valid()
      modifies this`active, this`field, this`nodes, heap
      ensures Valid() && List() == Unended(old(List()), top) && |List()| <= Peak() == old(Peak())
    {
      hide Linked, Distinct, Heap.Valid, Contents, Unended, ChunkCount;
      ghost var kept: seq<Address>, rest := [], nodes;
      var prev := NULL;
      ghost var before := List();
      assert kept + rest == nodes;
      ContentsEmpty(field);
      LinkedFirst(nodes, active, heap.word);
      var z := active;
      while z != NULL
        invariant Valid() && nodes == kept + rest && Peak() == old(Peak())
        invariant z == At(rest, 0) && (z == NULL ==> rest == [])
        invariant prev == if kept == [] then NULL else kept[|kept| - 1]
        invariant FieldsOf(kept, field) && FieldsOf(rest, field)
        invariant Unended(before, top) == Contents(kept, field) + Unended(Contents(rest, field), top)
        decreases |rest|
      {
        ghost var later := rest[1..];
        assert nodes == kept + [z] + later;
        UnendedStep(rest, field, top);
        if field[z].ey <= top {
          z := DeleteNext(prev, z, kept, later);
          rest := later;
        } else {
          prev := z;
          z := Next(z, kept, later);
          ContentsAppend(kept, prev, field);
          kept, rest := kept + [prev], later;
        }
      }
      assert kept == nodes;
      ContentsEmpty(field);
    }

    /** The node after `z`. */
    method Next(z: Address, ghost kept: seq<Address>, ghost later: seq<Address>) returns (next: Address)
      requires Valid() && nodes == kept + [z] + later
      ensures next == At(later, 0) && (next == NULL ==> later == [])
    {
      hide Linked, Distinct, Heap.Valid, Contents, ChunkCount;
      assert nodes[|kept|] == z && forall i | 0 <= i < |later| :: nodes[|kept| + 1 + i] == later[i];
      NodeAfter(nodes, |kept|, active, heap.word);
      LinkedIsNotNull(nodes, active, heap.word);
      next := heap.word[z];
    }

    /** One block more than the list has nodes is in use. */
    ghost predicate Spare(z: Address)
      reads this, heap
    {
      && heap.Valid(NODE_SIZE)
      && Linked(nodes, active, heap.word)
      && Distinct(nodes) && z !in nodes && z != NULL
      && (forall a :: a in heap.live <==> a == z || a in nodes)
      && (forall i | 0 <= i < |nodes| :: nodes[i] in field)
      && heap.remaining < ChunkCount(NODE_SIZE)
    }

    /** Gets a block for a node, without a link. */
    method NewBlock() returns (z: Address)
      requires Valid()
      modifies heap
      ensures Spare(z) && |nodes| + 1 + |heap.free| == Max(old(Peak()), |nodes| + 1)
    {
      hide Linked, Distinct, Heap.Valid;
      ghost var word := heap.word;
      z := heap.Alloc(NODE_SIZE);
      LinkedFrame(nodes, active, word, heap.word);
      LinkedElsewhere(nodes, active, heap.word, z, NULL);
      heap.Store(NODE_SIZE, z, NULL);
    }

    /** Puts the spare block in front. */
    method Link(z: Address)
      requires Spare(z) && z in field
      modifies this`active, this`nodes, heap`word
      ensures Valid() && nodes == [z] + old(nodes)
    {
      hide Linked, Distinct, Heap.Valid;
      LinkedPush(nodes, active, heap.word, z);
      DistinctPush(nodes, z);
      heap.Store(NODE_SIZE, z, active);
      active := z;
      nodes := [z] + nodes;
    }

    /** Puts a new node for `e` in front. */
    method Insert(e: Edge, offX: int, offY: int, row: nat)
      requires Valid() && e.y0 != e.y1
      modifies this`active, this`field, this`nodes, heap
      ensures Valid() && List() == [RowNode(e, offX, offY, row)] + old(List())
      ensures Peak() == Max(old(Peak()), |List()|)
    {
      hide Linked, Distinct, Heap.Valid, NewNode, ChunkCount, Contents;
      ghost var before, fields := nodes, field;
      var z := NewBlock();
      field := field[z := NewNode(e, offX, Top(offY, row))];
      if row == 0 && offY != 0 {
        if field[z].ey < Top(offY, row) {
          field := field[z := field[z].(ey := Top(offY, row))];
        }
      }
      assert forall i | 0 <= i < |before| :: before[i] in before;
      ContentsPush(before, z, fields, field);
      Link(z);
    }

    /** Moves every x on to the next row. */
    method Advance()
      requires Valid()
      modifies this`field
      ensures Valid() && List() == Advanced(old(List())) && Peak() == old(Peak())
    {
      hide Linked, Heap.Valid, Stepped;
      LinkedFirst(nodes, active, heap.word);
      var z := active;
      ghost var k := 0;
      while z != NULL
        invariant Valid() && 0 <= k <= |nodes| && z == At(nodes, k) && (z == NULL <==> k == |nodes|)
        invariant forall i | 0 <= i < k :: field[nodes[i]] == Stepped(old(field)[nodes[i]])
        invariant forall i | k <= i < |nodes| :: field[nodes[i]] == old(field)[nodes[i]]
        decreases |nodes| - k
      {
        NodeAfter(nodes, k, active, heap.word);
        LinkedIsNotNull(nodes, active, heap.word);
        field := field[z := Stepped(field[z])];
        z := heap.word[z];
        k := k + 1;
      }
    }

    /** Gives the allocator's chunks back. */
    method Release() returns (released: seq<Address>)
      requires Valid()
      modifies heap
      ensures released == Mallocs(heap.malloc, ChunksFor(old(Peak())))
    {
      hide Heap.Valid, Mallocs, Linked, Distinct, ChunkCount;
      SizeOfList(nodes, heap.live);
      FullChunks(heap, NODE_SIZE);
      released := heap.Cleanup(NODE_SIZE);
    }

    /** The list as the coverage code walks it. */
    method Walk() returns (list: seq<ActiveEdge>)
      requires Valid()
      ensures list == List()
    {
      hide Linked, Distinct, Heap.Valid;
      list := [];
      LinkedFirst(nodes, active, heap.word);
      var z := active;
      while z != NULL
        invariant |list| <= |nodes| && z == At(nodes, |list|) && (z == NULL <==> |list| == |nodes|)
        invariant list == List()[..|list|]
        decreases |nodes| - |list|
      {
        NodeAfter(nodes, |list|, active, heap.word);
        LinkedIsNotNull(nodes, active, heap.word);
        list := list + [field[z]];
        z := heap.word[z];
      }
    }
  }

  /** The chunks it takes to have n nodes at once. */
  function ChunksFor(n: nat): nat { (n + (ChunkCount(NODE_SIZE) - 1)) / ChunkCount(NODE_SIZE) }

  /** No chunk is left without a block that has been in use. */
  lemma FullChunks(heap: Heap, size: nat)
    requires heap.Valid(size) && heap.remaining < ChunkCount(size)
    ensures heap.mallocs == (|heap.live| + |heap.free| + (ChunkCount(size) - 1)) / ChunkCount(size)
  {
    hide Linked, Separates, Carved, Distinct;
    DividesUp(heap.mallocs, ChunkCount(size), heap.remaining);
  }

  lemma DividesUp(q: nat, d: nat, r: nat)
    requires r < d && r <= q * d
    ensures (q * d - r + (d - 1)) / d == q
  {
    QuotientIs(q * d + (d - 1 - r), q, d, d - 1 - r);
  }

  lemma QuotientIs(n: nat, q: nat, d: nat, s: nat)
    requires n == q * d + s && s < d
    ensures n / d == q
  {
    var x := n / d;
    assert x * d + n % d == n;
    assert (x - q) * d == s - n % d;
    Multiple(x - q, d);
  }

  lemma Multiple(k: int, d: int)
    requires d >= 0
    ensures k >= 1 ==> k * d >= d
    ensures k <= -1 ==> k * d <= -d
  {
    if k >= 1 {
      assert (k - 1) * d >= 0;
    } else if k <= -1 {
      assert (-k - 1) * d >= 0;
    }
  }

  lemma {:induction false} SizeOfList(nodes: seq<Address>, live: set<Address>)
    requires Distinct(nodes) && forall a :: a in live <==> a in nodes
    ensures |live| == |nodes|
    decreases |nodes|
  {
    if nodes == [] {
      assert live == {};
    } else {
      var rest := live - {nodes[0]};
      assert nodes == [nodes[0]] + nodes[1..];
      forall a ensures a in rest <==> a in nodes[1..] {
        assert a in nodes <==> a == nodes[0] || a in nodes[1..];
      }
      SizeOfList(nodes[1..], rest);
    }
  }

  lemma MembersOfList(kept: seq<Address>, z: Address, rest: seq<Address>)
    ensures var s, t := kept + [z] + rest, kept + rest;
            && s[|kept|] == z && (kept != [] ==> s[|kept| - 1] == kept[|kept| - 1])
            && (forall a :: a in s <==> a == z || a in t)
            && (forall i | 0 <= i < |t| :: t[i] == s[if i < |kept| then i else i + 1])
  {
    var s, t := kept + [z] + rest, kept + rest;
    assert forall a :: a in s <==> a in kept || a == z || a in rest;
  }

  ghost predicate FieldsOf(nodes: seq<Address>, field: Fields) {
    forall i | 0 <= i < |nodes| :: nodes[i] in field
  }

  lemma ContentsEmpty(field: Fields)
    ensures Contents([], field) == [] && forall top :: Unended([], top) == []
  {
  }

  lemma ContentsAppend(nodes: seq<Address>, z: Address, field: Fields)
    requires FieldsOf(nodes, field) && z in field
    ensures FieldsOf(nodes + [z], field) && Contents(nodes + [z], field) == Contents(nodes, field) + [field[z]]
  {
  }

  lemma ContentsPush(nodes: seq<Address>, z: Address, before: Fields, after: Fields)
    requires FieldsOf(nodes, before) && z in after
    requires forall i | 0 <= i < |nodes| :: nodes[i] in after && after[nodes[i]] == before[nodes[i]]
    ensures FieldsOf([z] + nodes, after) && Contents([z] + nodes, after) == [after[z]] + Contents(nodes, before)
  {
  }

  lemma UnendedStep(nodes: seq<Address>, field: Fields, top: real)
    requires FieldsOf(nodes, field) && nodes != []
    ensures FieldsOf(nodes[1..], field)
    ensures Unended(Contents(nodes, field), top)
         == (if field[nodes[0]].ey <= top then [] else [field[nodes[0]]]) + Unended(Contents(nodes[1..], field), top)
  {
    assert Contents(nodes, field)[1..] == Contents(nodes[1..], field);
  }

  lemma SameContents(nodes: seq<Address>, before: Fields, after: Fields, kept: seq<Address>, rest: seq<Address>)
    requires nodes == kept + rest
    requires forall i | 0 <= i < |nodes| ::
               nodes[i] in before && nodes[i] in after && before[nodes[i]] == after[nodes[i]]
    ensures FieldsOf(kept, before) && FieldsOf(rest, before) && FieldsOf(kept, after) && FieldsOf(rest, after)
    ensures Contents(kept, after) == Contents(kept, before) && Contents(rest, after) == Contents(rest, before)
  {
    assert forall i | 0 <= i < |kept| :: kept[i] == nodes[i];
    assert forall i | 0 <= i < |rest| :: rest[i] == nodes[|kept| + i];
  }

  lemma NodeAfter(nodes: seq<Address>, k: nat, head: Address, word: Memory)
    requires Linked(nodes, head, word) && k < |nodes|
    ensures nodes[k] in word && word[nodes[k]] == At(nodes, k + 1)
  {
    assert LinkAt(nodes, k, word);
  }

  lemma LinkedIsNotNull(nodes: seq<Address>, head: Address, word: Memory)
    requires Linked(nodes, head, word)
    ensures forall i | 0 <= i < |nodes| :: nodes[i] != NULL
  {
    forall i | 0 <= i < |nodes| ensures nodes[i] != NULL {
      assert LinkAt(nodes, i, word);
    }
  }

  lemma DistinctPush(nodes: seq<Address>, z: Address)
    requires Distinct(nodes) && z !in nodes
    ensures Distinct([z] + nodes)
  {
    var t := [z] + nodes;
    forall i, j | 0 <= i < j < |t| ensures t[i] != t[j] {
      assert t[j] == nodes[j - 1];
    }
  }

  // ---------- The rasterizer's loop ----------

  /** The most nodes on any row. */
  function Longest(rows: seq<seq<ActiveEdge>>): nat {
    if rows == [] then 0 else Max(Longest(rows[..|rows| - 1]), |rows[|rows| - 1]|)
  }

  /** `stbtt__rasterize_sorted_edges`; `rows` is what the coverage code is given on each row, `released`
      the chunks given back at the end: all that were allocated, which are as many as the longest row needs. */
  method RasterizeSortedEdges(e: array<Edge>, n: nat, height: nat, offX: int, offY: int, malloc: nat -> Address)
    returns (rows: seq<seq<ActiveEdge>>, released: seq<Address>)
    requires n < e.Length && Sorted(e[..n])
    requires Separates(malloc, ChunkBytes(NODE_SIZE))
    modifies e
    ensures e[..n] == old(e[..n])
    ensures |rows| == height
    ensures forall row | 0 <= row < height :: rows[row] == Row(e[..n], offX, offY, row)
    ensures released == Mallocs(malloc, ChunksFor(Longest(rows)))
  {
    hide ActiveList.Valid, ActiveList.List, ActiveList.Peak;
    hide Separates, Sorted, Row, Advanced, Unended, RowNode, Mallocs, Boundary, AllStart, ChunksFor;
    hide Longest, Top;
    ghost var edges := e[..n];
    var list := new ActiveList(malloc);
    e[n] := e[n].(y0 := (offY + height) as real + 1.0);
    rows := [];
    var c: nat, row: nat := 0, 0;
    EmptyRows(edges, offX, offY);
    TopsAscend(offY, 0, height);
    while row < height
      invariant row <= height && |rows| == row && c <= n
      invariant e[..n] == edges && e[n].y0 == Top(offY, height) + 1.0
      invariant list.Valid() && fresh(list) && fresh(list.heap) && list.heap.malloc == malloc
      invariant row == 0 ==> c == 0 && list.List() == []
      invariant row > 0 ==> list.List() == Advanced(Row(edges[..c], offX, offY, row - 1))
      invariant row > 0 ==> Boundary(edges, c, Top(offY, row))
      invariant list.Peak() == Longest(rows)
      invariant forall r | 0 <= r < row :: rows[r] == Row(edges, offX, offY, r)
    {
      list.RemoveEnded(Top(offY, row));
      if row > 0 {
        RowBegins(edges, c, offX, offY, row);
      }
      StartedAbove(edges, c, offY, row);
      TopsAscend(offY, row, height);
      c := InsertStarting(e, n, edges, c, list, offX, offY, row);
      RowEnds(edges, c, offX, offY, row);
      var walked := list.Walk();
      LongestStep(rows, walked);
      rows := rows + [walked];
      list.Advance();
      row := row + 1;
    }
    released := list.Release();
  }

  /** The part of the loop that inserts the edges from `start` on that start before the end of the row; the
      entry behind all edges stops it. */
  method InsertStarting(e: array<Edge>, n: nat, ghost edges: seq<Edge>, start: nat, list: ActiveList,
                        offX: int, offY: int, row: nat)
    returns (c: nat)
    requires start <= n < e.Length && edges == e[..n] && e[n].y0 > Top(offY, row) + 1.0
    requires list.Valid() && list.List() == Row(edges[..start], offX, offY, row) && |list.List()| <= list.Peak()
    requires row > 0 ==> Boundary(edges, start, Top(offY, row))
    requires AllStart(edges, start, Top(offY, row) + 1.0)
    modifies list`active, list`field, list`nodes, list.heap
    ensures start <= c <= n
    ensures list.Valid() && list.List() == Row(edges[..c], offX, offY, row)
    ensures list.Peak() == Max(old(list.Peak()), |list.List()|)
    ensures AllStart(edges, c, Top(offY, row) + 1.0) && (c < n ==> edges[c].y0 > Top(offY, row) + 1.0)
  {
    hide ActiveList.Valid, ActiveList.List, ActiveList.Peak, Row, RowNode, Boundary, Crosses;
    c := start;
    while e[c].y0 <= Top(offY, row) + 1.0
      invariant start <= c <= n && list.Valid() && list.List() == Row(edges[..c], offX, offY, row)
      invariant list.Peak() == Max(old(list.Peak()), |list.List()|)
      invariant AllStart(edges, c, Top(offY, row) + 1.0)
      decreases n - c
    {
      assert e[c] == edges[c];
      RowInsert(edges, c, offX, offY, row);
      StartingCrosses(edges, start, c, offY, row);
      if e[c].y0 != e[c].y1 {
        list.Insert(e[c], offX, offY, row);
      }
      c := c + 1;
    }
    assert c < n ==> e[c] == edges[c];
  }

  /** The first c edges start at or above `y`. */
  ghost predicate AllStart(edges: seq<Edge>, c: nat, y: real)
    requires c <= |edges|
  {
    forall i | 0 <= i < c :: edges[i].y0 <= y
  }

  /** On the first row nothing is before the cursor; later on that is known from the row above. */
  lemma StartedAbove(edges: seq<Edge>, c: nat, offY: int, row: nat)
    requires c <= |edges| && (if row == 0 then c == 0 else Boundary(edges, c, Top(offY, row)))
    ensures AllStart(edges, c, Top(offY, row) + 1.0)
  {
    forall i | 0 <= i < c ensures edges[i].y0 <= Top(offY, row) + 1.0 {
      assert edges[..c][i] == edges[i];
    }
  }

  /** All edges before the cursor start at or above `y`, all others below it. */
  ghost predicate Boundary(edges: seq<Edge>, c: nat, y: real)
    requires c <= |edges|
  {
    Started(edges[..c], y) && forall i | c <= i < |edges| :: edges[i].y0 > y
  }

  lemma EmptyRows(edges: seq<Edge>, offX: int, offY: int)
    ensures Row(edges[..0], offX, offY, 0) == []
    ensures forall top :: Unended([], top) == []
    ensures Longest([]) == 0
  {
  }

  lemma LongestStep(rows: seq<seq<ActiveEdge>>, row: seq<ActiveEdge>)
    ensures Longest(rows + [row]) == Max(Longest(rows), |row|)
  {
    assert (rows + [row])[..|rows|] == rows;
  }

  lemma TopsAscend(offY: int, row: nat, height: nat)
    ensures row < height ==> Top(offY, row) < Top(offY, height)
    ensures Top(offY, height) == (offY + height) as real
  {
  }

  lemma RowBegins(edges: seq<Edge>, c: nat, offX: int, offY: int, row: nat)
    requires c <= |edges| && row > 0 && Boundary(edges, c, Top(offY, row))
    ensures Unended(Advanced(Row(edges[..c], offX, offY, row - 1)), Top(offY, row)) == Row(edges[..c], offX, offY, row)
  {
    assert Top(offY, row - 1) + 1.0 == Top(offY, row);
    NextRow(edges[..c], offX, offY, row - 1);
  }

  /** An edge that the insertion loop reaches crosses the row unless it is horizontal. */
  lemma StartingCrosses(edges: seq<Edge>, start: nat, c: nat, offY: int, row: nat)
    requires start <= c < |edges| && edges[c].y0 <= Top(offY, row) + 1.0
    requires row > 0 ==> Boundary(edges, start, Top(offY, row))
    ensures Crosses(edges[c], offY, row) <==> edges[c].y0 != edges[c].y1
  {
  }

  lemma RowEnds(edges: seq<Edge>, c: nat, offX: int, offY: int, row: nat)
    requires c <= |edges| && Sorted(edges)
    requires AllStart(edges, c, Top(offY, row) + 1.0)
    requires c < |edges| ==> edges[c].y0 > Top(offY, row) + 1.0
    ensures Row(edges, offX, offY, row) == Row(edges[..c], offX, offY, row)
    ensures Boundary(edges, c, Top(offY, row + 1))
  {
    RowIgnoresLater(edges, c, offX, offY, row);
    assert Top(offY, row) + 1.0 == Top(offY, row + 1);
  }
}
