/** Sorting polygon edges by their top: a quicksort with unguarded scans that leaves short ranges
    alone, then one insertion sort over everything. */
module EdgeSort {
  import opened MachineInts

  datatype Edge = Edge(x0: real, y0: real, x1: real, y1: real, invert: bool)

  /** `STBTT__COMPARE`. */
  predicate Before(a: Edge, b: Edge) { a.y0 < b.y0 }

  /** The entries [lo, hi) of `after` are a permutation of those of `before`; all others are the same. */
  ghost predicate Rearranged(before: seq<Edge>, after: seq<Edge>, lo: int, hi: int) {
    && |before| == |after|
    && 0 <= lo <= hi <= |before|
    && before[..lo] == after[..lo]
    && before[hi..] == after[hi..]
    && multiset(before) == multiset(after)
  }

  ghost predicate Sorted(s: seq<Edge>) {
    forall i, j | 0 <= i < j < |s| :: s[i].y0 <= s[j].y0
  }

  lemma RearrangedInside(a: seq<Edge>, b: seq<Edge>, c: seq<Edge>, lo: int, hi: int, lo': int, hi': int)
    requires Rearranged(a, b, lo, hi) && lo <= lo' && hi' <= hi && Rearranged(b, c, lo', hi')
    ensures Rearranged(a, c, lo, hi)
  {
    assert c[..lo] == c[..lo'][..lo] == b[..lo'][..lo] == b[..lo];
    assert c[hi..] == c[hi'..][hi - hi'..] == b[hi'..][hi - hi'..] == b[hi..];
  }

  /** Rearranging a range rearranges its entries among themselves. */
  lemma RearrangedRange(before: seq<Edge>, after: seq<Edge>, lo: int, hi: int)
    requires Rearranged(before, after, lo, hi)
    ensures multiset(before[lo..hi]) == multiset(after[lo..hi])
  {
    var front, back := before[..lo], before[hi..];
    var x, y := before[lo..hi], after[lo..hi];
    assert before == front + x + back && after == front + y + back;
    assert multiset(before) == multiset(front) + multiset(x) + multiset(back);
    assert multiset(after) == multiset(front) + multiset(y) + multiset(back);
    CancelMultisets(multiset(front), multiset(x), multiset(y), multiset(back));
  }

  lemma CancelMultisets(a: multiset<Edge>, x: multiset<Edge>, y: multiset<Edge>, b: multiset<Edge>)
    requires a + x + b == a + y + b
    ensures x == y
  {
    forall e ensures x[e] == y[e] {
      assert (a + x + b)[e] == (a + y + b)[e];
    }
  }

  lemma RearrangedSame(a: seq<Edge>, lo: int, hi: int)
    requires 0 <= lo <= hi <= |a|
    ensures Rearranged(a, a, lo, hi)
  {
  }

  // ---------- Insertion sort ----------

  /** Moves entry `i` down into the sorted entries before it. */
  method Insert(a: array<Edge>, i: nat)
    requires i < a.Length && Sorted(a[..i])
    modifies a
    ensures Sorted(a[..i + 1])
    ensures Rearranged(old(a[..]), a[..], 0, i + 1)
  {
    hide Rearranged, Sorted;
    ghost var s := a[..];
    var t := a[i];
    var j := i;
    while j > 0
      invariant 0 <= j <= i
      invariant forall k | 0 <= k < j :: a[k] == s[k]
      invariant forall k | j < k <= i :: a[k] == s[k - 1]
      invariant forall k | j <= k < i :: Before(t, s[k])
      invariant j == i ==> a[i] == t
      invariant forall k | i < k < a.Length :: a[k] == s[k]
    {
      if !Before(t, a[j - 1]) { break; }
      a[j] := a[j - 1];
      j := j - 1;
    }
    if i != j { a[j] := t; }
    assert a[..] == Inserted(s, i, j);
    InsertedRearranges(s, i, j);
    InsertedSorted(s, i, j);
    assert a[..i + 1] == Inserted(s, i, j)[..i + 1] && s[..i] == old(a[..i]);
  }

  /** `s` with entry `i` moved down to `j`. */
  function Inserted(s: seq<Edge>, i: nat, j: nat): (r: seq<Edge>)
    requires j <= i < |s|
    ensures |r| == |s|
    ensures forall k | 0 <= k < |s| ::
              r[k] == if k < j || k > i then s[k] else if k == j then s[i] else s[k - 1]
  {
    s[..j] + [s[i]] + s[j..i] + s[i + 1..]
  }

  lemma InsertedSorted(s: seq<Edge>, i: nat, j: nat)
    requires j <= i < |s| && Sorted(s[..i])
    requires j > 0 ==> !Before(s[i], s[j - 1])
    requires forall k | j <= k < i :: Before(s[i], s[k])
    ensures Sorted(Inserted(s, i, j)[..i + 1])
  {
    var front, r := s[..i], Inserted(s, i, j);
    assert forall k | 0 <= k < j :: r[k] == front[k];
    assert forall k | j < k <= i :: r[k] == front[k - 1];
  }

  lemma InsertedRearranges(s: seq<Edge>, i: nat, j: nat)
    requires j <= i < |s|
    ensures Rearranged(s, Inserted(s, i, j), 0, i + 1)
  {
    assert s == s[..j] + s[j..i] + [s[i]] + s[i + 1..];
  }

  method InsertionSort(a: array<Edge>, n: nat)
    requires n <= a.Length
    modifies a
    ensures Rearranged(old(a[..]), a[..], 0, n)
    ensures Sorted(a[..n])
  {
    hide Rearranged, Sorted;
    RearrangedSame(a[..], 0, n);
    if n > 0 { ShortIsSorted(a[..1]); } else { ShortIsSorted(a[..n]); }
    var i := 1;
    while i < n
      invariant 1 <= i && (i <= n || n == 0)
      invariant Rearranged(old(a[..]), a[..], 0, n)
      invariant i <= n ==> Sorted(a[..i])
    {
      ghost var s := a[..];
      Insert(a, i);
      RearrangedInside(old(a[..]), s, a[..], 0, n, 0, i + 1);
      i := i + 1;
    }
  }

  lemma ShortIsSorted(s: seq<Edge>)
    ensures |s| <= 1 ==> Sorted(s)
  {
  }

  // ---------- What the quicksort does ----------

  function Swapped(s: seq<Edge>, i: nat, j: nat): (r: seq<Edge>)
    requires i < |s| && j < |s|
    ensures |r| == |s| && multiset(r) == multiset(s)
    ensures r[i] == s[j] && r[j] == s[i] && forall k | 0 <= k < |s| && k != i && k != j :: r[k] == s[k]
  {
    s[i := s[j]][j := s[i]]
  }

  /** The place of the median of the first, middle and last entry. */
  function MedianPlace(s: seq<Edge>): (k: nat)
    requires s != []
    ensures k < |s|
  {
    var m, last := |s| / 2, |s| - 1;
    if Before(s[0], s[m]) == Before(s[m], s[last]) then m
    else if Before(s[0], s[last]) == Before(s[m], s[last]) then 0
    else last
  }

  /** The median is swapped to the middle and then to the front. */
  function MedianFirst(s: seq<Edge>): (r: seq<Edge>)
    requires s != []
    ensures |r| == |s|
  {
    Swapped(Swapped(s, MedianPlace(s), |s| / 2), 0, |s| / 2)
  }

  function Median(x: real, y: real, z: real): real {
    if x <= y then if y <= z then y else if x <= z then z else x
    else if x <= z then x else if y <= z then z else y
  }

  /** The pivot is the median of the three, so there are two other entries, one not below it and one not
      above it: each scan has an entry to stop at. */
  lemma MedianStopsScans(s: seq<Edge>)
    requires |s| > 12
    ensures var q := MedianFirst(s);
            && q[0].y0 == Median(s[0].y0, s[|s| / 2].y0, s[|s| - 1].y0)
            && multiset(q) == multiset(s)
            && StopsUp(q, 1) && StopsDown(q, |q| - 1)
  {
    var q, m, last := MedianFirst(s), |s| / 2, |s| - 1;
    MedianAndOthers(s);
    hide MedianFirst, Median;
    assert q[m].y0 >= q[0].y0 || q[last].y0 >= q[0].y0;
    assert q[m].y0 <= q[0].y0 || q[last].y0 <= q[0].y0;
  }

  /** The other two of the three are in the middle and at the end. */
  lemma MedianAndOthers(s: seq<Edge>)
    requires |s| > 12
    ensures var q, m, last := MedianFirst(s), |s| / 2, |s| - 1;
            && multiset(q) == multiset(s) && q[0].y0 == Median(s[0].y0, s[m].y0, s[last].y0)
            && (q[m].y0 <= q[0].y0 <= q[last].y0 || q[last].y0 <= q[0].y0 <= q[m].y0)
  {
    hide Swapped;
  }

  /** Some entry from i on is not before the pivot. */
  ghost predicate StopsUp(s: seq<Edge>, i: nat) {
    exists k :: 0 <= i <= k < |s| && s[k].y0 >= s[0].y0
  }

  /** Some entry behind the pivot, up to j, is not after it. */
  ghost predicate StopsDown(s: seq<Edge>, j: int) {
    exists k :: 1 <= k <= j < |s| && s[k].y0 <= s[0].y0
  }

  /** The first entry from i on that is not before the pivot. */
  function UpFrom(s: seq<Edge>, i: nat): (k: nat)
    requires 1 <= i <= |s|
    ensures i <= k <= |s| && (k < |s| ==> s[k].y0 >= s[0].y0)
    ensures forall x | i <= x < k :: s[x].y0 < s[0].y0
    decreases |s| - i
  {
    if i < |s| && Before(s[i], s[0]) then UpFrom(s, i + 1) else i
  }

  /** The last entry up to j that is not after the pivot. */
  function DownFrom(s: seq<Edge>, j: nat): (k: nat)
    requires j < |s|
    ensures k <= j && s[k].y0 <= s[0].y0
    ensures forall y | k < y <= j :: s[y].y0 > s[0].y0
  {
    if Before(s[0], s[j]) then DownFrom(s, j - 1) else j
  }

  /** The entries after partitioning, and where the scans met. */
  datatype Split = Split(s: seq<Edge>, i: nat, j: nat)

  /** The partition loop, from scans that have come to i and j. */
  function Partitioned(s: seq<Edge>, i: nat, j: nat): (r: Split)
    requires 1 <= i <= |s| && j < |s|
    ensures |r.s| == |s| && i <= r.i <= |s| && r.j <= j && r.j <= r.i
    decreases j
  {
    var i', j' := UpFrom(s, i), DownFrom(s, j);
    if i' >= j' then Split(s, i', j') else Partitioned(Swapped(s, i', j'), i' + 1, j' - 1)
  }

  /** Nothing below i comes after the pivot, nothing above j before it. */
  ghost predicate Parted(s: seq<Edge>, i: nat, j: int) {
    && 1 <= i <= j + 1 <= |s|
    && (forall x | 0 <= x < i :: s[x].y0 <= s[0].y0)
    && (forall y | j < y < |s| :: s[y].y0 >= s[0].y0)
  }

  lemma ScansMeet(s: seq<Edge>, i: nat, j: nat)
    requires Parted(s, i, j) && StopsUp(s, i) && StopsDown(s, j)
    ensures var i', j' := UpFrom(s, i), DownFrom(s, j);
            && 1 <= j' && i' < |s| && i' <= j' + 1
            && (i' >= j' ==> forall x, y | 0 <= x < i' <= y < |s| :: s[x].y0 <= s[y].y0)
  {
    var i', j' := UpFrom(s, i), DownFrom(s, j);
    assert s[i' - 1].y0 <= s[0].y0;
  }

  lemma SwapParts(s: seq<Edge>, i: nat, j: nat)
    requires Parted(s, i, j) && UpFrom(s, i) < DownFrom(s, j)
    ensures var i', j' := UpFrom(s, i), DownFrom(s, j);
            var t := Swapped(s, i', j');
            Parted(t, i' + 1, j' - 1) && StopsUp(t, i' + 1) && StopsDown(t, j' - 1)
  {
    var i', j' := UpFrom(s, i), DownFrom(s, j);
    var t := Swapped(s, i', j');
    assert t[j'].y0 >= t[0].y0 && t[i'].y0 <= t[0].y0;
  }

  /** Both parts get an entry, at most one entry is in neither, and nothing in front of the upper part comes
      after anything in it. */
  ghost predicate Divides(r: Split, s: seq<Edge>) {
    && |r.s| == |s| && 1 <= r.j <= r.i <= r.j + 1 && r.i < |s|
    && multiset(r.s) == multiset(s)
    && forall x, y | 0 <= x < r.i <= y < |s| :: r.s[x].y0 <= r.s[y].y0
  }

  /** One turn of the loop. */
  lemma PartitionedStep(s: seq<Edge>, i: nat, j: nat)
    requires 1 <= i <= |s| && j < |s|
    ensures var i', j' := UpFrom(s, i), DownFrom(s, j);
            Partitioned(s, i, j) ==
            if i' >= j' then Split(s, i', j') else Partitioned(Swapped(s, i', j'), i' + 1, j' - 1)
  {
    hide UpFrom, DownFrom;
  }

  lemma {:induction false} PartitionDivides(s: seq<Edge>, i: nat, j: nat)
    requires Parted(s, i, j) && StopsUp(s, i) && StopsDown(s, j)
    ensures Divides(Partitioned(s, i, j), s)
    decreases j
  {
    hide StopsUp, StopsDown, UpFrom, DownFrom, Partitioned;
    PartitionedStep(s, i, j);
    ScansMeet(s, i, j);
    var i', j' := UpFrom(s, i), DownFrom(s, j);
    if i' < j' {
      SwapParts(s, i, j);
      hide Parted;
      PartitionDivides(Swapped(s, i', j'), i' + 1, j' - 1);
    }
  }

  function Pass(s: seq<Edge>): Split
    requires |s| > 12
  {
    Partitioned(MedianFirst(s), 1, |s| - 1)
  }

  lemma PassDivides(s: seq<Edge>)
    requires |s| > 12
    ensures Divides(Pass(s), s)
  {
    hide MedianFirst, Median, Partitioned, StopsUp, StopsDown, Parted;
    var q := MedianFirst(s);
    MedianStopsScans(s);
    ScansStart(q);
    PartitionDivides(q, 1, |s| - 1);
  }

  /** The quicksort: the two parts of a pass are sorted apart, and short ranges are left alone. */
  function Quick(s: seq<Edge>): (r: seq<Edge>)
    ensures |r| == |s|
    decreases |s|
  {
    if |s| <= 12 then s
    else
      var r := Pass(s);
      Quick(r.s[..r.j]) + r.s[r.j..r.i] + Quick(r.s[r.i..])
  }

  lemma QuickStep(s: seq<Edge>)
    ensures |s| <= 12 ==> Quick(s) == s
    ensures |s| > 12 ==>
              var r := Pass(s);
              Quick(s) == Quick(r.s[..r.j]) + r.s[r.j..r.i] + Quick(r.s[r.i..])
  {
    hide Pass;
  }

  lemma {:induction false} QuickPermutes(s: seq<Edge>)
    ensures multiset(Quick(s)) == multiset(s)
    decreases |s|
  {
    hide Quick, Pass;
    QuickStep(s);
    if |s| > 12 {
      var r := Pass(s);
      PassDivides(s);
      var low, mid, high := r.s[..r.j], r.s[r.j..r.i], r.s[r.i..];
      QuickPermutes(low);
      QuickPermutes(high);
      assert r.s == low + mid + high;
    }
  }

  // ---------- How far it gets ----------

  /** Whether some pass puts an entry at y and leaves it out of both parts. */
  predicate LeftOut(s: seq<Edge>, y: nat)
    requires y < |s|
    decreases |s|
  {
    |s| > 12 &&
    var r := Pass(s);
    if y < r.j then LeftOut(r.s[..r.j], y) else y < r.i || LeftOut(r.s[r.i..], y - r.i)
  }

  /** Two entries at least twelve places apart are in order, unless the later one was left out. */
  lemma {:induction false} ApartIsInOrder(s: seq<Edge>, x: nat, y: nat)
    requires x + 12 <= y < |s| && !LeftOut(s, y)
    ensures Quick(s)[x].y0 <= Quick(s)[y].y0
    decreases |s|
  {
    hide Quick, Pass;
    var r := Pass(s);
    PassDivides(s);
    QuickStep(s);
    var low, mid, high := r.s[..r.j], r.s[r.j..r.i], r.s[r.i..];
    if y < r.j {
      ApartIsInOrder(low, x, y);
    } else if r.i <= x {
      ApartIsInOrder(high, x - r.i, y - r.i);
    } else {
      FromRange(high, y - r.i);
      if x < r.j { FromRange(low, x); }
    }
  }

  lemma FromRange(s: seq<Edge>, k: nat)
    requires k < |s|
    ensures Quick(s)[k] in s
  {
    QuickPermutes(s);
    assert Quick(s)[k] in multiset(Quick(s));
  }

  /** Whether all entries at least twelve places apart are in order. */
  ghost predicate InOrderApart(s: seq<Edge>) {
    forall x, y | 0 <= x && x + 12 <= y < |s| :: s[x].y0 <= s[y].y0
  }

  /** If no pass leaves an entry out, from the twelfth place on, all entries twelve places apart are in order. */
  lemma NoneLeftOutIsInOrder(s: seq<Edge>)
    requires forall y | 12 <= y < |s| :: !LeftOut(s, y)
    ensures InOrderApart(Quick(s))
  {
    hide Quick, LeftOut;
    forall x: nat, y: nat | x + 12 <= y < |s| ensures Quick(s)[x].y0 <= Quick(s)[y].y0 {
      ApartIsInOrder(s, x, y);
    }
  }

  /** The converse fails: among equal entries the middle one is left out, and is in order all the same. */
  lemma LeftOutMayBeInOrder(k: nat, e: Edge)
    requires k >= 12
    ensures var s := seq(2 * k + 1, _ => e);
            LeftOut(s, k) && InOrderApart(Quick(s))
  {
    hide Quick, Pass;
    var s := seq(2 * k + 1, _ => e);
    EqualPass(s, k, e);
    forall x | 0 <= x < |s| ensures Quick(s)[x] == e { FromRange(s, x); }
  }

  ghost predicate AllAre(s: seq<Edge>, e: Edge) { forall i | 0 <= i < |s| :: s[i] == e }

  lemma EqualPass(s: seq<Edge>, k: nat, e: Edge)
    requires k >= 12 && |s| == 2 * k + 1 && AllAre(s, e)
    ensures Pass(s) == Split(s, k + 1, k)
  {
    hide Partitioned;
    assert MedianFirst(s) == s;
    EqualPartition(s, 1, 2 * k, k, e);
  }

  /** Each scan stops at once, and the two meet in the middle. */
  lemma {:induction false} EqualPartition(s: seq<Edge>, i: nat, j: nat, k: nat, e: Edge)
    requires |s| == 2 * k + 1 && AllAre(s, e) && 1 <= i <= k + 1 && i + j == 2 * k + 1
    ensures Partitioned(s, i, j) == Split(s, k + 1, k)
    decreases j
  {
    hide Partitioned;
    PartitionedStep(s, i, j);
    assert UpFrom(s, i) == i && DownFrom(s, j) == j;
    if i < j {
      assert Swapped(s, i, j) == s;
      EqualPartition(s, i + 1, j - 1, k, e);
    }
  }

  /** A pivot, entries below it, one entry below all of these in the middle, and entries above it. */
  function SmallestInTheMiddle(k: nat): (s: seq<Edge>)
    ensures |s| == 2 * k
  {
    seq(2 * k, i requires 0 <= i < 2 * k =>
      var y := if i == 0 then 2.0 else if i < k then 1.0 else if i == k then 0.0 else 3.0;
      Edge(0.0, y, 0.0, 4.0, false))
  }

  /** No distance is enough for order: the smallest of 2k entries stays in the middle, behind k larger ones. */
  lemma SmallestStaysInTheMiddle(k: nat, x: nat)
    requires x < k && k >= 7
    ensures var s := SmallestInTheMiddle(k);
            LeftOut(s, k) && Quick(s)[x].y0 > Quick(s)[k].y0
  {
    hide Quick, Pass, SmallestInTheMiddle;
    var s := SmallestInTheMiddle(k);
    MiddleTops(k);
    MiddlePass(k);
    QuickStep(s);
    FromRange(s[..k], x);
  }

  lemma MiddleTops(k: nat)
    ensures var s := SmallestInTheMiddle(k);
            forall i | 0 <= i < 2 * k ::
              s[i].y0 == if i == 0 then 2.0 else if i < k then 1.0 else if i == k then 0.0 else 3.0
  {
  }

  lemma MiddlePass(k: nat)
    requires k >= 7
    ensures var s := SmallestInTheMiddle(k); Pass(s) == Split(s, k + 1, k)
  {
    hide SmallestInTheMiddle, UpFrom, DownFrom, Partitioned, MedianFirst;
    var s := SmallestInTheMiddle(k);
    MiddleMedian(k);
    MiddleTops(k);
    PartitionedStep(s, 1, |s| - 1);
    var i, j := UpFrom(s, 1), DownFrom(s, |s| - 1);
    assert i == k + 1 by { assert s[k + 1].y0 == 3.0; }
    assert j == k by { assert s[k].y0 == 0.0; }
  }

  lemma MiddleMedian(k: nat)
    requires k >= 7
    ensures var s := SmallestInTheMiddle(k); MedianFirst(s) == s
  {
    hide SmallestInTheMiddle, Swapped;
    var s := SmallestInTheMiddle(k);
    MiddleTops(k);
    assert MedianPlace(s) == 0;
    SwappedTwice(s, 0, k);
  }

  lemma SwappedTwice(s: seq<Edge>, i: nat, j: nat)
    requires i < |s| && j < |s|
    ensures Swapped(Swapped(s, i, j), i, j) == s
  {
  }

  // ---------- In place ----------

  /** Nothing changes but the n entries from p. */
  ghost predicate Outside(before: seq<Edge>, after: seq<Edge>, p: nat, n: nat) {
    p + n <= |before| == |after| && after[..p] == before[..p] && after[p + n..] == before[p + n..]
  }

  lemma OutsideSame(s: seq<Edge>, p: nat, n: nat)
    requires p + n <= |s|
    ensures Outside(s, s, p, n)
  {
  }

  lemma OutsideTwice(a: seq<Edge>, b: seq<Edge>, c: seq<Edge>, p: nat, n: nat)
    requires Outside(a, b, p, n) && Outside(b, c, p, n)
    ensures Outside(a, c, p, n)
  {
  }

  method Swap(a: array<Edge>, p: nat, n: nat, i: nat, j: nat)
    requires p + n <= a.Length && i < n && j < n
    modifies a
    ensures a[p..p + n] == Swapped(old(a[p..p + n]), i, j)
    ensures Outside(old(a[..]), a[..], p, n)
  {
    var t := a[p + i];
    a[p + i] := a[p + j];
    a[p + j] := t;
  }

  /** Moves the median of the first, middle and last entry to the front. */
  method MedianToFront(a: array<Edge>, p: nat, n: nat)
    requires n > 12 && p + n <= a.Length
    modifies a
    ensures a[p..p + n] == MedianFirst(old(a[p..p + n]))
    ensures Outside(old(a[..]), a[..], p, n)
  {
    hide Swapped, MedianPlace, Outside;
    ghost var start := a[..];
    MedianToMiddle(a, p, n);
    ghost var middle := a[..];
    Swap(a, p, n, 0, n / 2);
    OutsideTwice(start, middle, a[..], p, n);
  }

  method MedianToMiddle(a: array<Edge>, p: nat, n: nat)
    requires n > 12 && p + n <= a.Length
    modifies a
    ensures a[p..p + n] == Swapped(old(a[p..p + n]), MedianPlace(old(a[p..p + n])), n / 2)
    ensures Outside(old(a[..]), a[..], p, n)
  {
    hide Swapped;
    var m := n / 2;
    SwappedSelf(a[p..p + n], m);
    var c01 := Before(a[p], a[p + m]);
    var c12 := Before(a[p + m], a[p + n - 1]);
    if c01 != c12 {
      var c := Before(a[p], a[p + n - 1]);
      var z := if c == c12 then 0 else n - 1;
      Swap(a, p, n, z, m);
    }
  }

  lemma SwappedSelf(s: seq<Edge>, m: nat)
    requires m < |s|
    ensures Swapped(s, m, m) == s
  {
  }

  /** Moves `i` up past the entries before the pivot at `p`. There is no check for the end of the range. */
  method ScanUp(a: array<Edge>, p: nat, n: nat, from: nat) returns (i: nat)
    requires 1 <= from && p + n <= a.Length && StopsUp(a[p..p + n], from)
    ensures i == UpFrom(a[p..p + n], from) < n
  {
    i := from;
    while Before(a[p + i], a[p])
      invariant from <= i && StopsUp(a[p..p + n], i)
      invariant UpFrom(a[p..p + n], i) == UpFrom(a[p..p + n], from)
      decreases n - i
    {
      i := i + 1;
    }
  }

  /** Moves `j` down past the entries after the pivot at `p`; stops at the pivot itself at the latest. */
  method ScanDown(a: array<Edge>, p: nat, n: nat, from: nat) returns (j: nat)
    requires p + n <= a.Length && from < n
    ensures j == DownFrom(a[p..p + n], from)
  {
    j := from;
    while Before(a[p], a[p + j])
      invariant j <= from && DownFrom(a[p..p + n], j) == DownFrom(a[p..p + n], from)
      decreases j
    {
      j := j - 1;
    }
  }

  lemma PartedInside(s: seq<Edge>, i: nat, j: nat)
    requires Parted(s, i, j) && StopsUp(s, i) && StopsDown(s, j)
    ensures 1 <= i <= |s| && j < |s|
  {
  }

  /** What the scans do in one turn of the loop. */
  lemma Turn(s: seq<Edge>, i: nat, j: nat)
    requires Parted(s, i, j) && StopsUp(s, i) && StopsDown(s, j)
    ensures 1 <= i <= |s| && j < |s|
    ensures var i', j' := UpFrom(s, i), DownFrom(s, j);
            && i' < |s|
            && (i' >= j' ==> Partitioned(s, i, j) == Split(s, i', j'))
            && (i' < j' ==>
                  var t := Swapped(s, i', j');
                  && Parted(t, i' + 1, j' - 1) && StopsUp(t, i' + 1) && StopsDown(t, j' - 1)
                  && Partitioned(s, i, j) == Partitioned(t, i' + 1, j' - 1))
  {
    hide UpFrom, DownFrom, Swapped, Partitioned, StopsUp, StopsDown;
    PartitionedStep(s, i, j);
    ScansMeet(s, i, j);
    if UpFrom(s, i) < DownFrom(s, j) { SwapParts(s, i, j); }
  }

  /** One partition pass around the median of three. */
  method Partition(a: array<Edge>, p: nat, n: nat) returns (i: nat, j: nat)
    requires n > 12 && p + n <= a.Length
    modifies a
    ensures Split(a[p..p + n], i, j) == Pass(old(a[p..p + n]))
    ensures Outside(old(a[..]), a[..], p, n)
  {
    hide MedianFirst, Median, StopsUp, StopsDown, Partitioned, Parted, Outside;
    ghost var start := a[..];
    MedianStopsScans(a[p..p + n]);
    MedianToFront(a, p, n);
    ghost var middle := a[..];
    ScansStart(a[p..p + n]);
    i, j := PartitionLoop(a, p, n);
    OutsideTwice(start, middle, a[..], p, n);
  }

  /** The part of `Partition` that swaps what the two scans stop at. */
  method PartitionLoop(a: array<Edge>, p: nat, n: nat) returns (i: nat, j: nat)
    requires n > 12 && p + n <= a.Length
    requires Parted(a[p..p + n], 1, n - 1) && StopsUp(a[p..p + n], 1) && StopsDown(a[p..p + n], n - 1)
    modifies a
    ensures Split(a[p..p + n], i, j) == Partitioned(old(a[p..p + n]), 1, n - 1)
    ensures Outside(old(a[..]), a[..], p, n)
  {
    hide UpFrom, DownFrom, StopsUp, StopsDown, Partitioned, Swapped, Parted, Outside;
    i, j := 1, n - 1;
    ghost var start, goal := a[..], Partitioned(a[p..p + n], 1, n - 1);
    OutsideSame(start, p, n);
    while true
      invariant 1 <= i <= n && j < n && Parted(a[p..p + n], i, j)
      invariant StopsUp(a[p..p + n], i) && StopsDown(a[p..p + n], j)
      invariant Partitioned(a[p..p + n], i, j) == goal
      invariant Outside(start, a[..], p, n)
      decreases j
    {
      Turn(a[p..p + n], i, j);
      i := ScanUp(a, p, n, i);
      j := ScanDown(a, p, n, j);
      if i >= j { break; }
      ghost var now := a[..];
      Swap(a, p, n, i, j);
      OutsideTwice(start, now, a[..], p, n);
      i, j := i + 1, j - 1;
      PartedInside(a[p..p + n], i, j);
    }
  }

  lemma ScansStart(s: seq<Edge>)
    requires |s| > 1
    ensures Parted(s, 1, |s| - 1)
  {
  }

  /** `w` with the quicksort done on the n entries from p. */
  function QuickAt(w: seq<Edge>, p: nat, n: nat): seq<Edge>
    requires p + n <= |w|
    ensures |QuickAt(w, p, n)| == |w|
  {
    w[..p] + Quick(w[p..p + n]) + w[p + n..]
  }

  /** Whether `after` is `before` with one pass done on the n entries from p. */
  ghost predicate Passed(before: seq<Edge>, after: seq<Edge>, p: nat, n: nat, i: nat, j: nat) {
    && n > 12 && p + n <= |before| == |after|
    && Split(after[p..p + n], i, j) == Pass(before[p..p + n])
    && Outside(before, after, p, n)
  }

  lemma QuickBetween(a: seq<Edge>, x: seq<Edge>, b: seq<Edge>)
    ensures QuickAt(a + x + b, |a|, |x|) == a + Quick(x) + b
  {
    hide Quick;
    Pieces(a, x, b);
  }

  lemma Pieces(a: seq<Edge>, x: seq<Edge>, b: seq<Edge>)
    ensures var w := a + x + b; w[..|a|] == a && w[|a|..|a| + |x|] == x && w[|a| + |x|..] == b
  {
  }

  lemma Assoc(a: seq<Edge>, x: seq<Edge>, b: seq<Edge>)
    ensures a + x + b == a + (x + b)
  {
  }

  lemma Regroup(a: seq<Edge>, l: seq<Edge>, m: seq<Edge>, h: seq<Edge>, b: seq<Edge>)
    ensures a + (l + m + h) + b == a + l + (m + h + b)
    ensures a + (l + m + h) + b == (a + l + m) + h + b
  {
    Assoc(l, m, h);
    Assoc(a, l, m + h);
    Assoc(a + l, m + h, b);
    Assoc(a + l, m, h);
  }

  lemma Cut(w: seq<Edge>, p: nat, n: nat)
    requires p + n <= |w|
    ensures w == w[..p] + w[p..p + n] + w[p + n..]
  {
  }

  /** After a pass and one part, the other part is what is left to do. */
  lemma QuickOneFirst(before: seq<Edge>, after: seq<Edge>, p: nat, n: nat, i: nat, j: nat)
    requires Passed(before, after, p, n, i, j) && j <= i <= n
    ensures QuickAt(before, p, n) == QuickAt(QuickAt(after, p, j), p + i, n - i)
    ensures QuickAt(before, p, n) == QuickAt(QuickAt(after, p + i, n - i), p, j)
  {
    hide Quick, Pass, QuickAt;
    var a, x, q, b := after[..p], before[p..p + n], after[p..p + n], after[p + n..];
    QuickStep(x);
    Cut(before, p, n);
    Cut(after, p, n);
    QuickBetween(a, x, b);
    PiecesLowFirst(a, q[..j], q[j..i], q[i..], b);
    PiecesHighFirst(a, q[..j], q[j..i], q[i..], b);
    assert q == q[..j] + q[j..i] + q[i..];
  }

  lemma PiecesLowFirst(a: seq<Edge>, l: seq<Edge>, m: seq<Edge>, h: seq<Edge>, b: seq<Edge>)
    ensures QuickAt(QuickAt(a + (l + m + h) + b, |a|, |l|), |a| + |l| + |m|, |h|)
         == a + (Quick(l) + m + Quick(h)) + b
  {
    hide Quick, QuickAt;
    Regroup(a, l, m, h, b);
    QuickBetween(a, l, m + h + b);
    Regroup(a, Quick(l), m, h, b);
    QuickBetween(a + Quick(l) + m, h, b);
    Regroup(a, Quick(l), m, Quick(h), b);
  }

  lemma PiecesHighFirst(a: seq<Edge>, l: seq<Edge>, m: seq<Edge>, h: seq<Edge>, b: seq<Edge>)
    ensures QuickAt(QuickAt(a + (l + m + h) + b, |a| + |l| + |m|, |h|), |a|, |l|)
         == a + (Quick(l) + m + Quick(h)) + b
  {
    hide Quick, QuickAt;
    Regroup(a, l, m, h, b);
    QuickBetween(a + l + m, h, b);
    Regroup(a, l, m, Quick(h), b);
    QuickBetween(a, l, m + Quick(h) + b);
    Regroup(a, Quick(l), m, Quick(h), b);
  }

  lemma QuickNothing(w: seq<Edge>, p: nat, n: nat)
    requires p + n <= |w| && n <= 12
    ensures QuickAt(w, p, n) == w
  {
  }

  /** Recurses on the smaller part only, so calls nest at most log2(n) deep; `depth` counts them. */
  method QuickSort(a: array<Edge>, lo: nat, size: nat) returns (ghost depth: nat)
    requires lo + size <= a.Length
    modifies a
    ensures a[..] == QuickAt(old(a[..]), lo, size)
    ensures depth == 0 || Pow2(depth) <= size
    decreases size
  {
    hide Pow2, QuickAt, Pass, Outside;
    var p: nat, n: nat := lo, size;
    depth := 0;
    while n > 12
      invariant lo <= p && p + n <= lo + size
      invariant QuickAt(a[..], p, n) == QuickAt(old(a[..]), lo, size)
      invariant depth == 0 || Pow2(depth) <= size
      decreases n
    {
      ghost var s := a[..];
      PassDivides(s[p..p + n]);
      assert s[p..p + n] == a[p..p + n];
      var i, j := Partition(a, p, n);
      assert a[..][p..p + n] == a[p..p + n];
      assert Passed(s, a[..], p, n, i, j);
      QuickOneFirst(s, a[..], p, n, i, j);
      ghost var d;
      if j < n - i {
        d := QuickSort(a, p, j);
        Deeper(d, j, size);
        p := p + i;
        n := n - i;
      } else {
        d := QuickSort(a, p + i, n - i);
        Deeper(d, n - i, size);
        n := j;
      }
      if d + 1 > depth { depth := d + 1; }
    }
    QuickNothing(a[..], p, n);
  }

  /** A call on at most half of the range may nest one level less deep. */
  lemma Deeper(d: nat, part: nat, size: nat)
    requires (d == 0 || Pow2(d) <= part) && 2 * part <= size && size > 1
    ensures Pow2(d + 1) <= size
  {
  }

  /** `stbtt__sort_edges`: ascending tops, the same edges, and the sentinel slot behind them untouched. */
  method SortEdges(a: array<Edge>, n: nat)
    requires n <= a.Length
    modifies a
    ensures Sorted(a[..n])
    ensures multiset(a[..n]) == multiset(old(a[..n]))
    ensures a[n..] == old(a[n..])
  {
    hide Quick;
    QuickPermutes(a[0..n]);
    assert a[0..n] == a[..n];
    ghost var before := a[..];
    assert before[0..n] == a[0..n];
    ghost var depth := QuickSort(a, 0, n);
    ghost var middle := a[..];
    InsertionSort(a, n);
    RearrangedRange(middle, a[..], 0, n);
    assert a[..n] == a[..][0..n] && middle[0..n] == Quick(before[0..n]);
    assert a[n..] == a[..][n..];
  }
}
