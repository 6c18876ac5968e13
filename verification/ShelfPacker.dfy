/** The built-in rectangle packer: rows of rectangles, each row starting under the tallest so far. */
module ShelfPacker {

  datatype Rect = Rect(x: int, y: int, id: int, w: int, h: int, wasPacked: bool)

  /** The packer's position: where the next rectangle goes, and how far down any has reached. */
  datatype Shelf = Shelf(x: int, y: int, bottom: int)

  // ---------- What packing does ----------

  /** The position after starting a new row if the width asks for it. */
  function Wrapped(s: Shelf, w: int, width: int): Shelf {
    if s.x + w > width then Shelf.Shelf(0, s.bottom, s.bottom) else s
  }

  predicate Fits(s: Shelf, r: Rect, width: int, height: int) { Wrapped(s, r.w, width).y + r.h <= height }

  function Placed(s: Shelf, r: Rect, width: int): Rect {
    var t := Wrapped(s, r.w, width);
    Rect.Rect(t.x, t.y, r.id, r.w, r.h, true)
  }

  function After(s: Shelf, r: Rect, width: int): Shelf {
    var t := Wrapped(s, r.w, width);
    Shelf.Shelf(t.x + r.w, t.y, if t.y + r.h > t.bottom then t.y + r.h else t.bottom)
  }

  /** How many rectangles are packed before the first one that does not fit. */
  function PackedCount(s: Shelf, rects: seq<Rect>, width: int, height: int): (k: nat)
    ensures k <= |rects|
    decreases |rects|
  {
    if rects == [] || !Fits(s, rects[0], width, height) then 0
    else 1 + PackedCount(After(s, rects[0], width), rects[1..], width, height)
  }

  /** The position in which packing the first k leaves the packer. */
  function ShelfAfter(s: Shelf, rects: seq<Rect>, width: int, k: nat): Shelf
    requires k <= |rects|
  {
    if k == 0 then s else After(ShelfAfter(s, rects, width, k - 1), rects[k - 1], width)
  }

  lemma {:induction false} ShelfAfterStep(s: Shelf, rects: seq<Rect>, width: int, k: nat)
    requires rects != [] && k < |rects|
    ensures ShelfAfter(s, rects, width, k + 1) == ShelfAfter(After(s, rects[0], width), rects[1..], width, k)
  {
    hide After;
    if k > 0 { ShelfAfterStep(s, rects, width, k - 1); }
  }

  /** The count is where the first misfit is. */
  lemma {:induction false} CountIsFirstMisfit(s: Shelf, rects: seq<Rect>, width: int, height: int, k: nat)
    requires k <= |rects|
    requires forall i | 0 <= i < k :: Fits(ShelfAfter(s, rects, width, i), rects[i], width, height)
    requires k == |rects| || !Fits(ShelfAfter(s, rects, width, k), rects[k], width, height)
    ensures PackedCount(s, rects, width, height) == k
    decreases k
  {
    hide After, Fits;
    if k > 0 {
      assert Fits(ShelfAfter(s, rects, width, 0), rects[0], width, height);
      var rest, next := rects[1..], After(s, rects[0], width);
      forall i | 0 <= i < k - 1 ensures Fits(ShelfAfter(next, rest, width, i), rest[i], width, height) {
        ShelfAfterStep(s, rects, width, i);
        assert Fits(ShelfAfter(s, rects, width, i + 1), rects[i + 1], width, height);
      }
      if k < |rects| { ShelfAfterStep(s, rects, width, k - 1); }
      CountIsFirstMisfit(next, rest, width, height, k - 1);
    }
  }

  // ---------- Where packed rectangles may lie ----------

  predicate Apart(a: Rect, b: Rect) { a.x + a.w <= b.x || b.x + b.w <= a.x || a.y + a.h <= b.y || b.y + b.h <= a.y }

  predicate Inside(r: Rect, width: int, height: int) {
    0 <= r.x && 0 <= r.y && r.y + r.h <= height && (r.w <= width ==> r.x + r.w <= width)
  }

  /** A packed rectangle is in an earlier row, or to the left in the current one. */
  predicate Behind(r: Rect, s: Shelf) {
    r.y + r.h <= s.bottom && (r.y + r.h <= s.y || r.x + r.w <= s.x)
  }

  ghost predicate WellPacked(packed: seq<Rect>, s: Shelf, width: int, height: int) {
    && 0 <= s.x && 0 <= s.y <= s.bottom
    && (forall i | 0 <= i < |packed| :: Behind(packed[i], s) && Inside(packed[i], width, height) && packed[i].h >= 0)
    && forall i, j | 0 <= i < j < |packed| :: Apart(packed[i], packed[j])
  }

  lemma PlacingKeepsApart(packed: seq<Rect>, s: Shelf, r: Rect, width: int, height: int)
    requires WellPacked(packed, s, width, height) && Fits(s, r, width, height) && r.w >= 0 && r.h >= 0
    ensures WellPacked(packed + [Placed(s, r, width)], After(s, r, width), width, height)
  {
    var p, s', all := Placed(s, r, width), After(s, r, width), packed + [Placed(s, r, width)];
    assert Behind(p, s') && Inside(p, width, height);
    assert forall q :: Behind(q, s) && q.h >= 0 ==> Apart(q, p) && Behind(q, s');
    hide Behind, Inside, Apart, Placed, After, Fits;
    forall i, j | 0 <= i < j < |all| ensures Apart(all[i], all[j]) {
      assert all[i] == packed[i] && (j < |packed| ==> all[j] == packed[j]);
    }
  }

  /** A placed rectangle stays inside the width exactly when it is no wider than that. */
  lemma InsideExactlyWhenNarrow(s: Shelf, r: Rect, width: int)
    requires 0 <= s.x
    ensures var p := Placed(s, r, width); p.x + p.w <= width <==> r.w <= width
  {
    if s.x + r.w <= width { assert Placed(s, r, width).x == s.x; }
  }

  lemma WrappingKeepsApart(packed: seq<Rect>, s: Shelf, w: int, width: int, height: int)
    requires WellPacked(packed, s, width, height)
    ensures WellPacked(packed, Wrapped(s, w, width), width, height)
  {
    assert forall q :: Behind(q, s) ==> Behind(q, Wrapped(s, w, width));
    hide Behind, Inside, Apart;
  }

  // ---------- The packer ----------

  class Packer {
    const width: int
    const height: int
    var x: int
    var y: int
    var bottomY: int

    /** Everything packed since the start, over all calls. */
    ghost var packed: seq<Rect>

    /** `stbrp_init_target`. */
    constructor (width: int, height: int)
      ensures Valid() && packed == [] && this.width == width && this.height == height
    {
      this.width, this.height := width, height;
      x, y, bottomY := 0, 0, 0;
      packed := [];
    }

    function Position(): Shelf
      reads this
    {
      Shelf.Shelf(x, y, bottomY)
    }

    /** No two rectangles packed so far overlap, and all are inside the target. */
    ghost predicate Valid()
      reads this
    {
      WellPacked(packed, Position(), width, height)
    }

    /** One turn of the packing loop: places a rectangle, or finds that it does not fit. */
    method PackOne(rects: array<Rect>, i: nat) returns (fits: bool)
      requires Valid() && i < rects.Length && rects[i].w >= 0 && rects[i].h >= 0
      modifies this`x, this`y, this`bottomY, this`packed, rects
      ensures Valid() && fits == Fits(old(Position()), old(rects[i]), width, height)
      ensures fits ==>
                var r := Placed(old(Position()), old(rects[i]), width);
                && Position() == After(old(Position()), old(rects[i]), width)
                && rects[..] == old(rects[..])[i := r] && packed == old(packed) + [r]
      ensures !fits ==> rects[..] == old(rects[..]) && packed == old(packed)
    {
      hide WellPacked;
      ghost var s, r := Position(), rects[i];
      WrappingKeepsApart(packed, s, r.w, width, height);
      if x + rects[i].w > width {
        x, y := 0, bottomY;
      }
      if y + rects[i].h > height {
        return false;
      }
      PlacingKeepsApart(packed, s, r, width, height);
      rects[i] := Rect.Rect(x, y, rects[i].id, rects[i].w, rects[i].h, true);
      x := x + rects[i].w;
      if y + rects[i].h > bottomY {
        bottomY := y + rects[i].h;
      }
      packed := packed + [rects[i]];
      return true;
    }

    method PackRects(rects: array<Rect>)
      requires Valid()
      requires forall i | 0 <= i < rects.Length :: rects[i].w >= 0 && rects[i].h >= 0
      modifies this`x, this`y, this`bottomY, this`packed, rects
      ensures Valid()
      ensures PrefixPacked(old(Position()), old(rects[..]), rects[..], width, height)
      ensures packed == old(packed) + rects[..PackedCount(old(Position()), old(rects[..]), width, height)]
    {
      hide Fits, Placed, After, PackedCount, Position, Valid, Done, PrefixPacked;
      DoneStart(Position(), rects[..], width, height);
      ghost var input, start := rects[..], Position();
      var i := 0;
      while i < rects.Length
        invariant 0 <= i <= rects.Length && Valid()
        invariant Position() == ShelfAfter(start, input, width, i)
        invariant packed == old(packed) + rects[..i]
        invariant Done(start, input, rects[..], width, height, i)
      {
        ghost var before := rects[..];
        assert rects[i] == before[i];
        DoneLeaves(start, input, before, width, height, i);
        var fits := PackOne(rects, i);
        if !fits {
          break;
        }
        DoneStep(start, input, before, rects[..], width, height, i);
        i := i + 1;
      }
      ghost var placed := rects[..];
      GiveUp(rects, i);
      DoneCount(start, input, placed, rects[..], width, height, i);
    }
  }

  /** The first i rectangles fitted and have been placed; the others are as they were. */
  ghost predicate Done(start: Shelf, input: seq<Rect>, now: seq<Rect>, width: int, height: int, i: nat) {
    && i <= |input| == |now|
    && (forall j | 0 <= j < i :: Fits(ShelfAfter(start, input, width, j), input[j], width, height))
    && (forall j | 0 <= j < i :: now[j] == Placed(ShelfAfter(start, input, width, j), input[j], width))
    && forall j | i <= j < |input| :: now[j] == input[j]
  }

  lemma DoneLeaves(start: Shelf, input: seq<Rect>, now: seq<Rect>, width: int, height: int, i: nat)
    requires Done(start, input, now, width, height, i) && i < |now|
    ensures |input| == |now| && now[i] == input[i]
  {
  }

  lemma DoneStep(start: Shelf, input: seq<Rect>, before: seq<Rect>, now: seq<Rect>, width: int, height: int, i: nat)
    requires Done(start, input, before, width, height, i) && i < |input| == |now|
    requires var s := ShelfAfter(start, input, width, i);
             Fits(s, input[i], width, height) && now == before[i := Placed(s, input[i], width)]
    ensures Done(start, input, now, width, height, i + 1)
  {
    hide Fits, Placed, ShelfAfter;
  }

  lemma DoneStart(start: Shelf, input: seq<Rect>, width: int, height: int)
    ensures Done(start, input, input, width, height, 0)
  {
  }

  /** The rectangles before the first misfit are placed, and all from there on are marked as not packed. */
  ghost predicate PrefixPacked(start: Shelf, input: seq<Rect>, now: seq<Rect>, width: int, height: int) {
    var k := PackedCount(start, input, width, height);
    && |now| == |input|
    && (forall j | 0 <= j < k :: now[j] == Placed(ShelfAfter(start, input, width, j), input[j], width))
    && forall j | k <= j < |input| :: now[j] == input[j].(wasPacked := false)
  }

  lemma DoneCount(start: Shelf, input: seq<Rect>, placed: seq<Rect>, now: seq<Rect>, width: int, height: int, i: nat)
    requires Done(start, input, placed, width, height, i)
    requires i == |input| || !Fits(ShelfAfter(start, input, width, i), input[i], width, height)
    requires |now| == |input| && now[..i] == placed[..i]
    requires forall j | i <= j < |input| :: now[j] == placed[j].(wasPacked := false)
    ensures PackedCount(start, input, width, height) == i && PrefixPacked(start, input, now, width, height)
  {
    hide Fits, Placed, ShelfAfter;
    CountIsFirstMisfit(start, input, width, height, i);
    hide PackedCount;
    assert forall j | 0 <= j < i :: now[j] == now[..i][j];
  }

  /** The loop over the rectangles that are left. */
  method GiveUp(rects: array<Rect>, from: nat)
    requires from <= rects.Length
    modifies rects
    ensures rects[..from] == old(rects[..from])
    ensures forall j | from <= j < rects.Length :: rects[j] == old(rects[j]).(wasPacked := false)
  {
    for i := from to rects.Length
      invariant rects[..from] == old(rects[..from])
      invariant forall j | from <= j < i :: rects[j] == old(rects[j]).(wasPacked := false)
      invariant forall j | i <= j < rects.Length :: rects[j] == old(rects[j])
    {
      rects[i] := rects[i].(wasPacked := false);
    }
  }
}
