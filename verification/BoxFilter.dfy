/** The oversampling prefilters: a running sum over a ring buffer against the direct box filter. */
module BoxFilter {
  import opened MachineInts

  const MAX_OVERSAMPLE := 8

  function Sum(s: seq<byte>): nat {
    if s == [] then 0 else Sum(s[..|s| - 1]) + s[|s| - 1]
  }

  /** The box that ends at sample `i`: the last `kernel` samples, fewer at the left end. */
  function Box(line: seq<byte>, i: nat, kernel: nat): (s: seq<byte>)
    requires i < |line|
    ensures |s| <= kernel
  {
    line[Max(0, i + 1 - kernel)..i + 1]
  }

  /** The direct filter: the floor of the mean over the box, where samples left of the line count as 0. */
  function Filtered(line: seq<byte>, kernel: nat): (r: seq<byte>)
    requires 1 <= kernel
    ensures |r| == |line|
  {
    seq(|line|, i requires 0 <= i < |line| => BoxMean(line, i, kernel))
  }

  function BoxMean(line: seq<byte>, i: nat, kernel: nat): byte
    requires 1 <= kernel && i < |line|
  {
    SumBound(Box(line, i, kernel));
    MeanBound(Sum(Box(line, i, kernel)), kernel);
    Sum(Box(line, i, kernel)) / kernel
  }

  lemma {:induction false} SumBound(s: seq<byte>)
    ensures Sum(s) <= 255 * |s|
  {
    if s != [] { SumBound(s[..|s| - 1]); }
  }

  lemma MeanBound(sum: nat, kernel: nat)
    requires 1 <= kernel && sum <= 255 * kernel
    ensures sum / kernel <= 255
  {
  }

  lemma {:induction false} SumTail(s: seq<byte>)
    requires s != []
    ensures Sum(s) == s[0] + Sum(s[1..])
  {
    if |s| > 1 {
      SumTail(s[..|s| - 1]);
      assert s[1..][..|s| - 2] == s[..|s| - 1][1..];
    } else {
      assert s[..0] == [] && s[1..] == [];
    }
  }

  /** Moving the box one sample on adds the new sample and drops the one `kernel` before it. */
  lemma SlideBox(line: seq<byte>, i: nat, kernel: nat)
    requires 1 <= kernel && i < |line|
    ensures Sum(Box(line, i, kernel))
         == (if i == 0 then 0 else Sum(Box(line, i - 1, kernel))) + line[i]
            - (if i >= kernel then line[i - kernel] else 0)
  {
    var b := Box(line, i, kernel);
    if i == 0 {
      assert b[..|b| - 1] == [];
    } else {
      var a := Box(line, i - 1, kernel);
      if i >= kernel {
        assert (a + [line[i]])[1..] == b;
        SumTail(a + [line[i]]);
        assert (a + [line[i]])[..|a|] == a;
      } else {
        assert b[..|b| - 1] == a;
      }
    }
  }

  // ---------- Lines in a pixel buffer ----------

  /** Where sample `i` of a line lies that starts at `base` and takes every `step`-th byte. */
  function Pos(base: nat, step: nat, i: nat): nat { base + i * step }

  predicate LineFits(length: nat, base: nat, step: nat, n: nat) {
    step >= 1 && (n > 0 ==> Pos(base, step, n - 1) < length)
  }

  lemma PosOrder(base: nat, step: nat, i: nat, j: nat)
    requires step >= 1 && i < j
    ensures Pos(base, step, i) < Pos(base, step, j)
  {
    MulOrder(i, j, step);
  }

  lemma {:induction false} MulOrder(i: nat, j: nat, m: nat)
    requires i < j
    ensures i * m + m <= j * m
  {
    if j > i + 1 {
      MulOrder(i, j - 1, m);
      assert j * m == (j - 1) * m + m;
    } else {
      assert j * m == i * m + m;
    }
  }

  lemma PosInside(length: nat, base: nat, step: nat, n: nat, i: nat)
    requires LineFits(length, base, step, n) && i < n
    ensures Pos(base, step, i) < length
  {
    if i < n - 1 { PosOrder(base, step, i, n - 1); }
  }

  function Line(pixels: seq<byte>, base: nat, step: nat, n: nat): (line: seq<byte>)
    requires LineFits(|pixels|, base, step, n)
    ensures |line| == n
  {
    seq(n, i requires 0 <= i < n => PosInside(|pixels|, base, step, n, i); pixels[Pos(base, step, i)])
  }

  /** `pixels` with the first `i` samples of a line replaced. */
  function Written(pixels: seq<byte>, base: nat, step: nat, out: seq<byte>, i: nat): (s: seq<byte>)
    requires LineFits(|pixels|, base, step, |out|) && i <= |out|
    ensures |s| == |pixels|
  {
    if i == 0 then pixels
    else
      PosInside(|pixels|, base, step, |out|, i - 1);
      Written(pixels, base, step, out, i - 1)[Pos(base, step, i - 1) := out[i - 1]]
  }

  /** A replaced line reads as what was written, and nothing else changed. */
  lemma {:induction false} WrittenAt(pixels: seq<byte>, base: nat, step: nat, out: seq<byte>, i: nat, q: nat)
    requires LineFits(|pixels|, base, step, |out|) && i <= |out| && q < |pixels|
    ensures (forall k | 0 <= k < i :: q != Pos(base, step, k)) ==> Written(pixels, base, step, out, i)[q] == pixels[q]
    ensures forall k | 0 <= k < i && q == Pos(base, step, k) :: Written(pixels, base, step, out, i)[q] == out[k]
  {
    hide Pos;
    if i > 0 {
      WrittenAt(pixels, base, step, out, i - 1, q);
      forall k | 0 <= k < i - 1 ensures Pos(base, step, k) != Pos(base, step, i - 1) {
        PosOrder(base, step, k, i - 1);
      }
    }
  }

  // ---------- One line, with the ring buffer ----------

  /** The ring holds the samples still to be dropped: slot k modulo 8 has the one `kernel` before k. */
  ghost predicate RingHolds(buffer: seq<byte>, line: seq<byte>, kernel: nat, from: nat, to: nat) {
    && |buffer| == MAX_OVERSAMPLE
    && forall k | from <= k < to ::
         buffer[k % MAX_OVERSAMPLE] == if k < kernel then 0 else if k - kernel < |line| then line[k - kernel] else 0
  }

  lemma RingStep(buffer: seq<byte>, line: seq<byte>, kernel: nat, i: nat)
    requires 1 <= kernel <= MAX_OVERSAMPLE && i < |line| && RingHolds(buffer, line, kernel, i, i + kernel)
    ensures RingHolds(buffer[(i + kernel) % MAX_OVERSAMPLE := line[i]], line, kernel, i + 1, i + 1 + kernel)
  {
  }

  function BoxBefore(line: seq<byte>, i: nat, kernel: nat): nat
    requires i <= |line|
  {
    if i == 0 then 0 else Sum(Box(line, i - 1, kernel))
  }

  /** The line as the filter sees it: its last `kernel - 1` samples are taken to be zero, which the source
      asserts, and are not looked at. */
  function Cut(line: seq<byte>, kernel: nat): (r: seq<byte>)
    ensures |r| == |line|
  {
    seq(|line|, i requires 0 <= i < |line| => if i + kernel <= |line| then line[i] else 0)
  }

  /** Lines that end with zeros are filtered as they are. */
  lemma ZeroTailIsKept(line: seq<byte>, kernel: nat)
    requires forall i | Max(0, |line| + 1 - kernel) <= i < |line| :: line[i] == 0
    ensures Cut(line, kernel) == line
  {
  }

  /** Whatever the tail holds, the box of a pixel in it ends where the tail begins. */
  lemma TailBox(line: seq<byte>, kernel: nat, i: nat)
    requires 1 <= kernel <= |line| && |line| + 1 - kernel <= i < |line|
    ensures Sum(Box(Cut(line, kernel), i, kernel)) == Sum(line[Max(0, i + 1 - kernel)..|line| + 1 - kernel])
  {
    var n := |line| + 1 - kernel;
    var from := Max(0, i + 1 - kernel);
    var b := Box(Cut(line, kernel), i, kernel);
    forall k | 0 <= k < |b|
      ensures b[k] == if k < n - from then line[from + k] else 0
    {
      assert b[k] == Cut(line, kernel)[from + k];
    }
    var head, tail := line[from..n], b[n - from..];
    hide Box, Cut;
    assert b == head + tail;
    SumZeros(head, tail);
  }

  lemma {:induction false} SumZeros(s: seq<byte>, zeros: seq<byte>)
    requires forall i | 0 <= i < |zeros| :: zeros[i] == 0
    ensures Sum(s + zeros) == Sum(s)
    decreases |zeros|
  {
    if zeros == [] {
      assert s + zeros == s;
    } else {
      var front := zeros[..|zeros| - 1];
      assert (s + zeros)[..|s + zeros| - 1] == s + front;
      SumZeros(s, front);
    }
  }

  method FilterLine(pixels: array<byte>, base: nat, step: nat, n: nat, kernel: nat, buffer: array<byte>)
    requires 1 <= kernel <= MAX_OVERSAMPLE == buffer.Length && pixels != buffer
    requires LineFits(pixels.Length, base, step, n)
    modifies pixels, buffer
    ensures pixels[..] ==
            Written(old(pixels[..]), base, step, Filtered(Cut(Line(old(pixels[..]), base, step, n), kernel), kernel), n)
  {
    hide Pos, Written, Sum, Box, Filtered, RingHolds, Line, LineFits;
    ghost var before := pixels[..];
    ghost var line := Line(before, base, step, n);
    ghost var cut := Cut(line, kernel);
    ghost var out := Filtered(cut, kernel);
    for k := 0 to kernel
      invariant forall j | 0 <= j < k :: buffer[j] == 0
      invariant pixels[..] == before
    {
      buffer[k] := 0;
    }
    var total := 0;
    var i := 0;
    EmptyRing(buffer[..], cut, kernel);
    NothingWritten(before, base, step, out);
    while i + kernel <= n
      invariant i <= n && (n < kernel ==> i == 0) && (n >= kernel ==> i + kernel <= n + 1)
      invariant pixels[..] == Written(before, base, step, out, i)
      invariant total == BoxBefore(cut, i, kernel)
      invariant RingHolds(buffer[..], cut, kernel, i, i + kernel)
      decreases n - i
    {
      SampleStep(before, base, step, line, cut, out, kernel, i);
      RingValue(buffer[..], cut, kernel, i, i + kernel, i);
      RingStep(buffer[..], cut, kernel, i);
      var p := Pos(base, step, i);
      assert pixels[p] == pixels[..][p] == cut[i];
      total := total + pixels[p] - buffer[i % MAX_OVERSAMPLE];
      buffer[(i + kernel) % MAX_OVERSAMPLE] := pixels[p];
      pixels[p] := total / kernel;
      i := i + 1;
    }
    FilterTail(pixels, base, step, n, kernel, buffer, i, total, before, line);
  }

  /** The second loop, for the tail of the line. */
  method FilterTail(pixels: array<byte>, base: nat, step: nat, n: nat, kernel: nat, buffer: array<byte>, start: nat,
                    sum: nat, ghost before: seq<byte>, ghost line: seq<byte>)
    requires 1 <= kernel <= MAX_OVERSAMPLE == buffer.Length && pixels != buffer
    requires LineFits(|before|, base, step, n) && line == Line(before, base, step, n)
    requires Max(0, n + 1 - kernel) == start <= n && sum == BoxBefore(Cut(line, kernel), start, kernel)
    requires pixels[..] == Written(before, base, step, Filtered(Cut(line, kernel), kernel), start)
    requires RingHolds(buffer[..], Cut(line, kernel), kernel, start, start + kernel)
    modifies pixels
    ensures pixels[..] == Written(before, base, step, Filtered(Cut(line, kernel), kernel), n)
  {
    hide Pos, Written, Sum, Box, Filtered, RingHolds, Line, LineFits;
    ghost var cut := Cut(line, kernel);
    ghost var out, ring := Filtered(cut, kernel), buffer[..];
    var i, total := start, sum;
    while i < n
      invariant start <= i <= n
      invariant pixels[..] == Written(before, base, step, out, i)
      invariant total == BoxBefore(cut, i, kernel)
      invariant RingHolds(ring, cut, kernel, i, start + kernel)
    {
      SampleStep(before, base, step, line, cut, out, kernel, i);
      RingValue(ring, cut, kernel, i, start + kernel, i);
      RingSuffix(ring, cut, kernel, i, start + kernel);
      assert cut[i] == 0 && buffer[i % MAX_OVERSAMPLE] == ring[i % MAX_OVERSAMPLE];
      total := total - buffer[i % MAX_OVERSAMPLE];
      pixels[Pos(base, step, i)] := total / kernel;
      i := i + 1;
    }
  }

  lemma EmptyRing(buffer: seq<byte>, line: seq<byte>, kernel: nat)
    requires kernel <= |buffer| == MAX_OVERSAMPLE && forall j | 0 <= j < kernel :: buffer[j] == 0
    ensures RingHolds(buffer, line, kernel, 0, kernel)
  {
  }

  lemma RingValue(buffer: seq<byte>, line: seq<byte>, kernel: nat, from: nat, to: nat, i: nat)
    requires RingHolds(buffer, line, kernel, from, to) && from <= i < to && i < |line|
    ensures |buffer| == MAX_OVERSAMPLE
    ensures buffer[i % MAX_OVERSAMPLE] == if i < kernel then 0 else line[i - kernel]
  {
  }

  lemma RingSuffix(buffer: seq<byte>, line: seq<byte>, kernel: nat, from: nat, to: nat)
    requires RingHolds(buffer, line, kernel, from, to)
    ensures RingHolds(buffer, line, kernel, from + 1, to)
  {
  }

  lemma NothingWritten(pixels: seq<byte>, base: nat, step: nat, out: seq<byte>)
    requires LineFits(|pixels|, base, step, |out|)
    ensures Written(pixels, base, step, out, 0) == pixels
  {
  }

  /** Sample `i` is still unfiltered, and replacing it by the mean of its box goes on with the result. */
  lemma SampleStep(before: seq<byte>, base: nat, step: nat, line: seq<byte>, cut: seq<byte>, out: seq<byte>,
                   kernel: nat, i: nat)
    requires 1 <= kernel && i < |line| == |cut| && LineFits(|before|, base, step, |line|)
    requires line == Line(before, base, step, |line|) && out == Filtered(cut, kernel)
    ensures Pos(base, step, i) < |before|
    ensures Written(before, base, step, out, i)[Pos(base, step, i)] == line[i]
    ensures BoxBefore(cut, i + 1, kernel)
         == BoxBefore(cut, i, kernel) + cut[i] - (if i >= kernel then cut[i - kernel] else 0)
    ensures BoxBefore(cut, i + 1, kernel) / kernel == out[i]
    ensures Written(before, base, step, out, i + 1) == Written(before, base, step, out, i)[Pos(base, step, i) := out[i]]
  {
    hide Sum, Box;
    PosInside(|before|, base, step, |line|, i);
    forall k | 0 <= k < i ensures Pos(base, step, k) != Pos(base, step, i) { PosOrder(base, step, k, i); }
    WrittenAt(before, base, step, out, i, Pos(base, step, i));
    SlideBox(cut, i, kernel);
  }

  // ---------- All lines of an image ----------

  /** `lines` lines of `n` samples, in an image with `stride` bytes per row: its rows or its columns. */
  datatype Grid = Rows(lines: nat, n: nat, stride: nat) | Columns(lines: nat, n: nat, stride: nat)
  {
    function Base(j: nat): nat { if Rows? then j * stride else j }

    function StepSize(): nat { if Rows? then 1 else stride }

    /** The lines fit the buffer and do not overlap. */
    predicate Fits(length: nat) {
      && stride >= 1
      && (if Rows? then n <= stride else lines <= stride)
      && forall j | 0 <= j < lines :: LineFits(length, Base(j), StepSize(), n)
    }

    function LineOf(pixels: seq<byte>, j: nat): (line: seq<byte>)
      requires Fits(|pixels|) && j < lines
    {
      Line(pixels, Base(j), StepSize(), n)
    }

    predicate OnLine(q: nat, j: nat) {
      exists i :: 0 <= i < n && q == Pos(Base(j), StepSize(), i)
    }
  }

  /** No pixel belongs to two lines. */
  lemma LinesAreDisjoint(g: Grid, length: nat, j: nat, k: nat, q: nat)
    requires g.Fits(length) && j < g.lines && k < g.lines && j != k && g.OnLine(q, j)
    ensures !g.OnLine(q, k)
  {
    if g.OnLine(q, k) {
      var a :| 0 <= a < g.n && q == Pos(g.Base(j), g.StepSize(), a);
      var b :| 0 <= b < g.n && q == Pos(g.Base(k), g.StepSize(), b);
      if g.Rows? {
        CellsAreDistinct(j, a, k, b, g.stride);
      } else {
        CellsAreDistinct(a, j, b, k, g.stride);
      }
    }
  }

  lemma CellsAreDistinct(row: nat, col: nat, row': nat, col': nat, stride: nat)
    requires col < stride && col' < stride && row * stride + col == row' * stride + col'
    ensures row == row' && col == col'
  {
    if row < row' { MulOrder(row, row', stride); }
    if row' < row { MulOrder(row', row, stride); }
  }

  /** Writing a line changes no pixel that is not on it. */
  lemma WrittenElsewhere(pixels: seq<byte>, g: Grid, j: nat, out: seq<byte>, q: nat)
    requires g.Fits(|pixels|) && j < g.lines && |out| == g.n && q < |pixels| && !g.OnLine(q, j)
    ensures Written(pixels, g.Base(j), g.StepSize(), out, g.n)[q] == pixels[q]
  {
    WrittenAt(pixels, g.Base(j), g.StepSize(), out, g.n, q);
  }

  /** Writing one line makes it read as written and leaves every other line alone. */
  lemma WriteLine(pixels: seq<byte>, g: Grid, j: nat, out: seq<byte>)
    requires g.Fits(|pixels|) && j < g.lines && |out| == g.n
    ensures var after := Written(pixels, g.Base(j), g.StepSize(), out, g.n);
            && g.LineOf(after, j) == out
            && forall k | 0 <= k < g.lines && k != j :: g.LineOf(after, k) == g.LineOf(pixels, k)
  {
    hide Written;
    var after := Written(pixels, g.Base(j), g.StepSize(), out, g.n);
    forall i | 0 <= i < g.n ensures g.LineOf(after, j)[i] == out[i] {
      PosInside(|pixels|, g.Base(j), g.StepSize(), g.n, i);
      WrittenAt(pixels, g.Base(j), g.StepSize(), out, g.n, Pos(g.Base(j), g.StepSize(), i));
    }
    forall k | 0 <= k < g.lines && k != j ensures g.LineOf(after, k) == g.LineOf(pixels, k) {
      forall i | 0 <= i < g.n ensures g.LineOf(after, k)[i] == g.LineOf(pixels, k)[i] {
        var q := Pos(g.Base(k), g.StepSize(), i);
        PosInside(|pixels|, g.Base(k), g.StepSize(), g.n, i);
        assert g.OnLine(q, k);
        LinesAreDisjoint(g, |pixels|, k, j, q);
        WrittenElsewhere(pixels, g, j, out, q);
      }
    }
  }

  /** `stbtt__h_prefilter` (rows) and `stbtt__v_prefilter` (columns): every line is box-filtered, and
      pixels between the lines stay as they were. */
  method Prefilter(pixels: array<byte>, g: Grid, kernel: nat)
    requires 1 <= kernel <= MAX_OVERSAMPLE && g.Fits(pixels.Length)
    modifies pixels
    ensures forall j | 0 <= j < g.lines ::
              g.LineOf(pixels[..], j) == Filtered(Cut(g.LineOf(old(pixels[..]), j), kernel), kernel)
    ensures forall q | 0 <= q < pixels.Length && (forall j | 0 <= j < g.lines :: !g.OnLine(q, j)) ::
              pixels[q] == old(pixels[q])
  {
    hide Filtered, Cut, Written, Line, LineFits, Grid.OnLine;
    ghost var before := pixels[..];
    var buffer := new byte[MAX_OVERSAMPLE](_ => 0);
    for j := 0 to g.lines
      invariant forall k | 0 <= k < j :: g.LineOf(pixels[..], k) == Filtered(Cut(g.LineOf(before, k), kernel), kernel)
      invariant forall k | j <= k < g.lines :: g.LineOf(pixels[..], k) == g.LineOf(before, k)
      invariant forall q | 0 <= q < pixels.Length && (forall k | 0 <= k < g.lines :: !g.OnLine(q, k)) ::
                  pixels[q] == before[q]
    {
      ghost var now := pixels[..];
      ghost var out := Filtered(Cut(g.LineOf(now, j), kernel), kernel);
      FilterLine(pixels, g.Base(j), g.StepSize(), g.n, kernel, buffer);
      WriteLine(now, g, j, out);
      forall q | 0 <= q < pixels.Length && (forall k | 0 <= k < g.lines :: !g.OnLine(q, k))
        ensures pixels[q] == before[q]
      {
        WrittenElsewhere(now, g, j, out, q);
        assert pixels[q] == pixels[..][q] == now[q];
      }
    }
  }
}
