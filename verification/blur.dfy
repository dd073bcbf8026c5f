/** planar_functions.cc and row_common.cc: ARGBBlur over a circular summed-area table. */
module Blur {
  import Float32
  import opened Counters
  import opened Planar
  import opened Views

  // ----- sums over an image, one channel at a time

  /** Channel ch of an ARGB image whose rows start stride bytes apart. */
  function Channel(off: int, stride: int, ch: int): View {
    View(off + ch, 4, stride)
  }

  function Pix(m: seq<byte>, v: View, x: int, y: int): int {
    if 0 <= v.At(x, y) < |m| then m[v.At(x, y)] else 0
  }

  /** Row y over columns x0 <= x < x1. */
  function RowSum(m: seq<byte>, v: View, x0: int, x1: int, y: int): int
    decreases x1 - x0
  {
    if x1 <= x0 then 0 else RowSum(m, v, x0, x1 - 1, y) + Pix(m, v, x1 - 1, y)
  }

  /** The box x0 <= x < x1, y0 <= y < y1. */
  function BoxSum(m: seq<byte>, v: View, x0: int, x1: int, y0: int, y1: int): int
    decreases y1 - y0
  {
    if y1 <= y0 then 0 else BoxSum(m, v, x0, x1, y0, y1 - 1) + RowSum(m, v, x0, x1, y1 - 1)
  }

  /** The summed-area table: everything above and to the left. */
  function Prefix(m: seq<byte>, v: View, x: int, y: int): int {
    BoxSum(m, v, 0, x, 0, y)
  }

  lemma {:induction false} RowSplit(m: seq<byte>, v: View, x0: int, x1: int, x2: int, y: int)
    requires x0 <= x1 <= x2
    ensures RowSum(m, v, x0, x2, y) == RowSum(m, v, x0, x1, y) + RowSum(m, v, x1, x2, y)
    decreases x2 - x1
  {
    if x1 < x2 {
      RowSplit(m, v, x0, x1, x2 - 1, y);
    }
  }

  lemma {:induction false} BoxSplitX(m: seq<byte>, v: View, x0: int, x1: int, x2: int, y0: int, y1: int)
    requires x0 <= x1 <= x2
    ensures BoxSum(m, v, x0, x2, y0, y1) == BoxSum(m, v, x0, x1, y0, y1) + BoxSum(m, v, x1, x2, y0, y1)
    decreases y1 - y0
  {
    if y0 < y1 {
      BoxSplitX(m, v, x0, x1, x2, y0, y1 - 1);
      RowSplit(m, v, x0, x1, x2, y1 - 1);
    }
  }

  lemma {:induction false} BoxSplitY(m: seq<byte>, v: View, x0: int, x1: int, y0: int, y1: int, y2: int)
    requires y0 <= y1 <= y2
    ensures BoxSum(m, v, x0, x1, y0, y2) == BoxSum(m, v, x0, x1, y0, y1) + BoxSum(m, v, x0, x1, y1, y2)
    decreases y2 - y1
  {
    if y1 < y2 {
      BoxSplitY(m, v, x0, x1, y0, y1, y2 - 1);
    }
  }

  /** The four-corner identity: any box from four entries of the table. */
  lemma FourCorners(m: seq<byte>, v: View, x0: int, x1: int, y0: int, y1: int)
    requires 0 <= x0 <= x1 && 0 <= y0 <= y1
    ensures Prefix(m, v, x1, y1) + Prefix(m, v, x0, y0) - Prefix(m, v, x0, y1) - Prefix(m, v, x1, y0)
      == BoxSum(m, v, x0, x1, y0, y1)
  {
    BoxSplitX(m, v, 0, x0, x1, 0, y1);
    BoxSplitX(m, v, 0, x0, x1, 0, y0);
    BoxSplitY(m, v, x0, x1, 0, y0, y1);
  }

  lemma {:induction false} RowSumBounds(m: seq<byte>, v: View, x0: int, x1: int, y: int)
    requires x0 <= x1
    ensures 0 <= RowSum(m, v, x0, x1, y) <= 255 * (x1 - x0)
    decreases x1 - x0
  {
    if x0 < x1 {
      RowSumBounds(m, v, x0, x1 - 1, y);
    }
  }

  lemma {:induction false} BoxSumBounds(m: seq<byte>, v: View, x0: int, x1: int, y0: int, y1: int)
    requires x0 <= x1 && y0 <= y1
    ensures 0 <= BoxSum(m, v, x0, x1, y0, y1) <= 255 * ((x1 - x0) * (y1 - y0))
    decreases y1 - y0
  {
    if y0 < y1 {
      BoxSumBounds(m, v, x0, x1, y0, y1 - 1);
      RowSumBounds(m, v, x0, x1, y1 - 1);
      assert (x1 - x0) * (y1 - y0) == (x1 - x0) * (y1 - 1 - y0) + (x1 - x0);
    }
  }

  /** Only what the view reaches matters, so a row may be named by its own address. */
  lemma {:induction false} RowSumMoved(m: seq<byte>, off: int, stride: int, ch: int, n: int, y: int)
    ensures RowSum(m, Channel(off, stride, ch), 0, n, y) == RowSum(m, Channel(off + y * stride, stride, ch), 0, n, 0)
    decreases n
  {
    if 0 < n {
      RowSumMoved(m, off, stride, ch, n - 1, y);
      assert Channel(off, stride, ch).At(n - 1, y) == Channel(off + y * stride, stride, ch).At(n - 1, 0);
    }
  }

  // ----- 32-bit table entries

  lemma Wrap32Add(a: int, b: int)
    ensures Wrap32(Wrap32(a) + b) == Wrap32(a + b)
  {
    WrapAdd(a + TWO31, b);
  }

  lemma WrapCorners(a: int, b: int, c: int, d: int)
    ensures Wrap32(Wrap32(a) + Wrap32(b) - Wrap32(c) - Wrap32(d)) == Wrap32(a + b - c - d)
  {
    Wrap32Add(a, Wrap32(b) - Wrap32(c) - Wrap32(d));
    Wrap32Add(b, a - Wrap32(c) - Wrap32(d));
    Wrap32Subtract(c, a + b - Wrap32(d));
    Wrap32Subtract(d, a + b - c);
  }

  lemma Wrap32Subtract(a: int, b: int)
    ensures Wrap32(b - Wrap32(a)) == Wrap32(b - a)
  {
    WrapSubtract(b + TWO31 + TWO31, a + TWO31);
  }

  // ----- one row of the table

  /** Pixel x, channel ch of a row of four-channel pixels starting at p. */
  function PixelRow(p: int): View {
    View(p, 4, 1)
  }

  /** A table entry: this row's sum so far plus the entry above. */
  function Entry(m: seq<byte>, s: int, stride: int, ch: int, x: int, above: int): int {
    Wrap32(RowSum(m, Channel(s, stride, ch), 0, x + 1, 0) + above)
  }

  method ComputeCumulativeSumRow(src: array<byte>, s: int, cum: array<int>, c: int, prev: int, width: int,
                                 ghost stride: int)
    requires 0 <= width && 0 <= s && s + 4 * width <= src.Length
    requires 0 <= c && c + 4 * width <= cum.Length && 0 <= prev && prev + 4 * width <= cum.Length
    requires prev == c || prev + 4 * width <= c || c + 4 * width <= prev
    modifies cum
    ensures forall k | 0 <= k < cum.Length && !(c <= k < c + 4 * width) :: cum[k] == old(cum[k])
    ensures EntriesDone(old(cum[..]), cum[..], c, prev, width, src[..], s, stride)
  {
    hide RowSum, Wrap32;
    ghost var before := cum[..];
    var rowSum := [0, 0, 0, 0];
    NothingSummed(src[..], s, stride);
    var x := 0;
    while x < width
      invariant 0 <= x <= width && |rowSum| == 4
      invariant forall ch | 0 <= ch < 4 :: rowSum[ch] == Wrap32(RowSum(src[..], Channel(s, stride, ch), 0, x, 0))
      invariant forall k | 0 <= k < cum.Length && !(c <= k < c + 4 * x) :: cum[k] == before[k]
      invariant EntriesDone(before, cum[..], c, prev, x, src[..], s, stride)
    {
      ghost var now := cum[..];
      ghost var was := rowSum;
      rowSum := [Wrap32(rowSum[0] + src[s + x * 4 + 0]), Wrap32(rowSum[1] + src[s + x * 4 + 1]),
                 Wrap32(rowSum[2] + src[s + x * 4 + 2]), Wrap32(rowSum[3] + src[s + x * 4 + 3])];
      forall ch | 0 <= ch < 4
        ensures rowSum[ch] == Wrap32(RowSum(src[..], Channel(s, stride, ch), 0, x + 1, 0))
      {
        SumPixel(src[..], s, stride, ch, x, was[ch]);
      }
      AddPixel(cum, c, prev, x, rowSum);
      EntriesNext(before, now, cum[..], c, prev, x, width, src[..], s, stride, rowSum);
      x := x + 1;
    }
  }

  ghost predicate EntriesDone(before: seq<int>, after: seq<int>, c: int, prev: int, n: int, m: seq<byte>, s: int,
                              stride: int) {
    |after| == |before| &&
    forall x, ch | 0 <= x < n && 0 <= ch < 4 ::
      && 0 <= PixelRow(c).At(x, ch) < |after| && 0 <= PixelRow(prev).At(x, ch) < |before|
      && after[PixelRow(c).At(x, ch)] == Entry(m, s, stride, ch, x, before[PixelRow(prev).At(x, ch)])
  }

  lemma NothingSummed(m: seq<byte>, s: int, stride: int)
    ensures forall ch :: Wrap32(RowSum(m, Channel(s, stride, ch), 0, 0, 0)) == 0
  {
  }

  lemma SumPixel(m: seq<byte>, s: int, stride: int, ch: int, x: int, sum: int)
    requires 0 <= x && 0 <= ch < 4 && 0 <= s && s + 4 * x + 4 <= |m|
    requires sum == Wrap32(RowSum(m, Channel(s, stride, ch), 0, x, 0))
    ensures Wrap32(sum + m[s + x * 4 + ch]) == Wrap32(RowSum(m, Channel(s, stride, ch), 0, x + 1, 0))
  {
    assert Channel(s, stride, ch).At(x, 0) == s + x * 4 + ch;
    Wrap32Add(RowSum(m, Channel(s, stride, ch), 0, x, 0), m[s + x * 4 + ch]);
  }

  /** Four table entries of one pixel, given the running sums of its row. */
  method AddPixel(cum: array<int>, c: int, prev: int, x: int, rowSum: seq<int>)
    requires |rowSum| == 4 && 0 <= x && 0 <= c && c + 4 * x + 4 <= cum.Length && 0 <= prev
    requires prev + 4 * x + 4 <= cum.Length
    requires prev == c || prev + 4 * x + 4 <= c + 4 * x || c + 4 * x + 4 <= prev + 4 * x
    modifies cum
    ensures forall k | 0 <= k < cum.Length && !(c + 4 * x <= k < c + 4 * x + 4) :: cum[k] == old(cum[k])
    ensures cum[c + 4 * x] == Wrap32(rowSum[0] + old(cum[prev + 4 * x]))
    ensures cum[c + 4 * x + 1] == Wrap32(rowSum[1] + old(cum[prev + 4 * x + 1]))
    ensures cum[c + 4 * x + 2] == Wrap32(rowSum[2] + old(cum[prev + 4 * x + 2]))
    ensures cum[c + 4 * x + 3] == Wrap32(rowSum[3] + old(cum[prev + 4 * x + 3]))
  {
    hide Wrap32;
    cum[c + x * 4 + 0] := Wrap32(rowSum[0] + cum[prev + x * 4 + 0]);
    cum[c + x * 4 + 1] := Wrap32(rowSum[1] + cum[prev + x * 4 + 1]);
    cum[c + x * 4 + 2] := Wrap32(rowSum[2] + cum[prev + x * 4 + 2]);
    cum[c + x * 4 + 3] := Wrap32(rowSum[3] + cum[prev + x * 4 + 3]);
  }

  lemma EntriesNext(before: seq<int>, now: seq<int>, after: seq<int>, c: int, prev: int, x: int, width: int,
                    m: seq<byte>, s: int, stride: int, rowSum: seq<int>)
    requires |rowSum| == 4 && 0 <= x < width && |now| == |before| == |after|
    requires 0 <= c && c + 4 * width <= |now| && 0 <= prev && prev + 4 * width <= |now|
    requires prev == c || prev + 4 * width <= c || c + 4 * width <= prev
    requires EntriesDone(before, now, c, prev, x, m, s, stride)
    requires forall k | 0 <= k < |now| && !(c <= k < c + 4 * x) :: now[k] == before[k]
    requires forall ch | 0 <= ch < 4 :: rowSum[ch] == Wrap32(RowSum(m, Channel(s, stride, ch), 0, x + 1, 0))
    requires forall k | 0 <= k < |now| && !(c + 4 * x <= k < c + 4 * x + 4) :: after[k] == now[k]
    requires after[c + 4 * x] == Wrap32(rowSum[0] + now[prev + 4 * x])
    requires after[c + 4 * x + 1] == Wrap32(rowSum[1] + now[prev + 4 * x + 1])
    requires after[c + 4 * x + 2] == Wrap32(rowSum[2] + now[prev + 4 * x + 2])
    requires after[c + 4 * x + 3] == Wrap32(rowSum[3] + now[prev + 4 * x + 3])
    ensures EntriesDone(before, after, c, prev, x + 1, m, s, stride)
  {
    hide RowSum, Wrap32, Entry;
    forall i, ch | 0 <= i < x + 1 && 0 <= ch < 4
      ensures 0 <= PixelRow(c).At(i, ch) < |after| && 0 <= PixelRow(prev).At(i, ch) < |before|
      ensures after[PixelRow(c).At(i, ch)] == Entry(m, s, stride, ch, i, before[PixelRow(prev).At(i, ch)])
    {
      assert PixelRow(c).At(i, ch) == c + 4 * i + ch && PixelRow(prev).At(i, ch) == prev + 4 * i + ch;
      if i == x {
        if ch == 0 {} else if ch == 1 {} else if ch == 2 {} else {}
        EntryFrom(m, s, stride, ch, x, rowSum[ch], before[prev + 4 * x + ch]);
      }
    }
  }

  lemma EntryFrom(m: seq<byte>, s: int, stride: int, ch: int, x: int, sum: int, above: int)
    requires sum == Wrap32(RowSum(m, Channel(s, stride, ch), 0, x + 1, 0))
    ensures Wrap32(sum + above) == Entry(m, s, stride, ch, x, above)
  {
    Wrap32Add(RowSum(m, Channel(s, stride, ch), 0, x + 1, 0), above);
  }

  // ----- table rows

  /** The row at p holds, for each pixel, the sum of the first k image rows up to that column. */
  ghost predicate Summed(cum: seq<int>, p: int, m: seq<byte>, off: int, stride: int, w: int, k: int) {
    && 0 <= p && p + 4 * w <= |cum|
    && forall x, ch | 0 <= x < w && 0 <= ch < 4 ::
      && 0 <= PixelRow(p).At(x, ch) < |cum|
      && cum[PixelRow(p).At(x, ch)] == Wrap32(Prefix(m, Channel(off, stride, ch), x + 1, k))
  }

  lemma SummedKept(before: seq<int>, after: seq<int>, p: int, m: seq<byte>, off: int, stride: int, w: int, k: int)
    requires Summed(before, p, m, off, stride, w, k) && |after| == |before|
    requires forall i | p <= i < p + 4 * w :: after[i] == before[i]
    ensures Summed(after, p, m, off, stride, w, k)
  {
    hide Wrap32, Prefix;
    forall x, ch | 0 <= x < w && 0 <= ch < 4
      ensures after[PixelRow(p).At(x, ch)] == Wrap32(Prefix(m, Channel(off, stride, ch), x + 1, k))
    {
      assert PixelRow(p).At(x, ch) == p + 4 * x + ch;
    }
  }

  lemma SummedNothing(cum: seq<int>, p: int, m: seq<byte>, off: int, stride: int, w: int)
    requires 0 <= p && p + 4 * w <= |cum| && forall i | p <= i < p + 4 * w :: cum[i] == 0
    ensures Summed(cum, p, m, off, stride, w, 0)
  {
    forall x, ch | 0 <= x < w && 0 <= ch < 4
      ensures p <= PixelRow(p).At(x, ch) < p + 4 * w
    {
      assert PixelRow(p).At(x, ch) == p + 4 * x + ch;
    }
  }

  lemma EntryIsPrefix(m: seq<byte>, off: int, stride: int, ch: int, x: int, k: int)
    requires 0 <= k
    ensures Entry(m, off + k * stride, stride, ch, x, Wrap32(Prefix(m, Channel(off, stride, ch), x + 1, k)))
         == Wrap32(Prefix(m, Channel(off, stride, ch), x + 1, k + 1))
  {
    hide Wrap32, Prefix, RowSum, BoxSum, View.At, Channel;
    PrefixNext(m, off, stride, ch, x + 1, k);
    Wrap32Add(Prefix(m, Channel(off, stride, ch), x + 1, k),
              RowSum(m, Channel(off + k * stride, stride, ch), 0, x + 1, 0));
  }

  lemma PrefixNext(m: seq<byte>, off: int, stride: int, ch: int, x: int, k: int)
    requires 0 <= k
    ensures Prefix(m, Channel(off, stride, ch), x, k + 1)
         == Prefix(m, Channel(off, stride, ch), x, k) + RowSum(m, Channel(off + k * stride, stride, ch), 0, x, 0)
  {
    hide RowSum, Channel;
    RowSumMoved(m, off, stride, ch, x, k);
  }

  /** One more image row on top of the row above. */
  lemma SummedNext(before: seq<int>, after: seq<int>, c: int, prev: int, m: seq<byte>, off: int, stride: int, w: int,
                   k: int)
    requires 0 <= k && 0 <= c && c + 4 * w <= |after|
    requires Summed(before, prev, m, off, stride, w, k)
    requires EntriesDone(before, after, c, prev, w, m, off + k * stride, stride)
    ensures Summed(after, c, m, off, stride, w, k + 1)
  {
    hide Wrap32, Prefix, Entry, View.At, Channel;
    forall x, ch | 0 <= x < w && 0 <= ch < 4
      ensures after[PixelRow(c).At(x, ch)] == Wrap32(Prefix(m, Channel(off, stride, ch), x + 1, k + 1))
    {
      EntryIsPrefix(m, off, stride, ch, x, k);
    }
  }

  lemma SlotsApart(base: int, stride32: int, w: int, i: int, j: int)
    requires 0 <= w && 4 * w <= stride32 && i < j
    ensures RowStart(base, stride32, i) + 4 * w <= RowStart(base, stride32, j)
  {
    assert j * stride32 == i * stride32 + stride32 + (j - i - 1) * stride32;
    assert (j - i - 1) * stride32 >= 0;
  }

  /** Slots 0 .. n of the table lie inside the buffer. */
  ghost predicate SlotsFit(base: int, stride32: int, w: int, n: int, len: int) {
    0 <= base && 4 * w <= stride32 && forall i | 0 <= i < n :: RowStart(base, stride32, i) + 4 * w <= len
  }

  lemma SlotInside(base: int, stride32: int, w: int, n: int, len: int, i: int)
    requires SlotsFit(base, stride32, w, n, len) && 0 <= w && 0 <= i < n
    ensures 0 <= RowStart(base, stride32, i) && RowStart(base, stride32, i) + 4 * w <= len
  {
    assert i * stride32 >= 0;
  }

  /** Image rows 0 .. n each have their table row in the slot of the same number. */
  ghost predicate RowsSummed(table: seq<int>, base: int, stride32: int, m: seq<byte>, s: int, stride: int, w: int,
                             n: int) {
    forall i | 0 <= i < n :: Summed(table, RowStart(base, stride32, i), m, s, stride, w, i + 1)
  }

  /** Writing slot i of a table of n changes nothing but the slots. */
  lemma SlotWritten(m0: seq<int>, m1: seq<int>, m2: seq<int>, base: int, stride32: int, w: int, n: int, i: int)
    requires 0 <= i < n && OnlyChanged(m0, m1, Plane(base, stride32), 4 * w, n) && |m2| == |m1|
    requires var p := RowStart(base, stride32, i);
      forall k | 0 <= k < |m1| && !(p <= k < p + 4 * w) :: m2[k] == m1[k]
    ensures OnlyChanged(m0, m2, Plane(base, stride32), 4 * w, n)
  {
    hide OnlyChanged;
    RowOnlyChanged(m1, m2, RowStart(base, stride32, i), stride32, 4 * w);
    PlaneDown(base, stride32, i);
    OnlyChangedPart(m0, m1, m2, Plane(base, stride32), 4 * w, n, 0, i, 4 * w, 1);
  }

  /** One pass of the table loop: row y from the row above, or from the cleared first row. */
  method AppendRow(src: array<byte>, s: int, stride: int, cum: array<int>, base: int, stride32: int, width: int,
                   ghost height: int, ghost y: int,
                   sp: int, c: int, prev: int)
    requires 0 < width && 0 <= y < height && SlotsFit(base, stride32, width, height, cum.Length)
    requires InBounds(Plane(s, stride), 4 * width, height, src.Length)
    requires sp == RowStart(s, stride, y) && c == RowStart(base, stride32, y)
    requires prev == RowStart(base, stride32, if y == 0 then 0 else y - 1)
    requires Summed(cum[..], prev, src[..], s, stride, width, y)
    requires RowsSummed(cum[..], base, stride32, src[..], s, stride, width, y)
    modifies cum
    ensures forall k | 0 <= k < cum.Length && !(c <= k < c + 4 * width) :: cum[k] == old(cum[k])
    ensures Summed(cum[..], c, src[..], s, stride, width, y + 1)
    ensures RowsSummed(cum[..], base, stride32, src[..], s, stride, width, y + 1)
  {
    hide View.At, SlotsFit, RowStart, InBounds, Summed, EntriesDone;
    ghost var before := cum[..];
    PlaneRow(s, stride, 4 * width, height, src.Length, y);
    RowStartIs(s, stride, y);
    SlotInside(base, stride32, width, height, cum.Length, y);
    SlotInside(base, stride32, width, height, cum.Length, if y == 0 then 0 else y - 1);
    SlotOrder(base, stride32, width, height, cum.Length, y);
    ComputeCumulativeSumRow(src, sp, cum, c, prev, width, stride);
    SummedNext(before, cum[..], c, prev, src[..], s, stride, width, y);
    forall i | 0 <= i < y
      ensures Summed(cum[..], RowStart(base, stride32, i), src[..], s, stride, width, i + 1)
    {
      SummedInside(before, RowStart(base, stride32, i), src[..], s, stride, width, i + 1);
      SummedKept(before, cum[..], RowStart(base, stride32, i), src[..], s, stride, width, i + 1);
    }
  }

  /** Builds the first height rows of the table, one slot each, and touches nothing else. */
  method ARGBComputeCumulativeSum(src: array?<byte>, s: int, stride: int, cum: array?<int>, base: int, stride32: int,
                                  width: int, height: int)
    returns (ret: int)
    requires src != null && cum != null && 0 < width && 0 < height ==>
      SlotsFit(base, stride32, width, height, cum.Length) && InBounds(Plane(s, stride), 4 * width, height, src.Length)
    modifies cum
    ensures ret == (if src != null && cum != null && 0 < width && 0 < height then 0 else -1)
    ensures ret == -1 && cum != null ==> cum[..] == old(cum[..])
    ensures ret == 0 ==> RowsSummed(cum[..], base, stride32, src[..], s, stride, width, height)
    ensures ret == 0 ==> OnlyChanged(old(cum[..]), cum[..], Plane(base, stride32), 4 * width, height)
  {
    if cum == null || src == null || width <= 0 || height <= 0 {
      return -1;
    }
    hide View.At, SlotsFit, RowStart, InBounds, Summed, RowsSummed, OnlyChanged;
    ghost var before := cum[..];
    SlotInside(base, stride32, width, height, cum.Length, 0);
    RowStartIs(base, stride32, 0);
    RowStartIs(s, stride, 0);
    forall k | base <= k < base + 4 * width {
      cum[k] := 0;
    }
    OnlyChangedSame(before, Plane(base, stride32), 4 * width, height);
    SlotWritten(before, before, cum[..], base, stride32, width, height, 0);
    SummedNothing(cum[..], base, src[..], s, stride, width);
    NoRowsSummed(cum[..], base, stride32, src[..], s, stride, width);
    var c, prev, sp, y := base, base, s, 0;
    while y < height
      invariant 0 <= y <= height && sp == RowStart(s, stride, y) && c == RowStart(base, stride32, y)
      invariant prev == RowStart(base, stride32, if y == 0 then 0 else y - 1)
      invariant Summed(cum[..], prev, src[..], s, stride, width, y)
      invariant RowsSummed(cum[..], base, stride32, src[..], s, stride, width, y)
      invariant OnlyChanged(before, cum[..], Plane(base, stride32), 4 * width, height)
    {
      ghost var now := cum[..];
      AppendRow(src, s, stride, cum, base, stride32, width, height, y, sp, c, prev);
      SlotWritten(before, now, cum[..], base, stride32, width, height, y);
      NextRow(base, stride32, y);
      NextRow(s, stride, y);
      prev := c;
      c := c + stride32;
      sp := sp + stride;
      y := y + 1;
    }
    return 0;
  }

  lemma NoRowsSummed(table: seq<int>, base: int, stride32: int, m: seq<byte>, s: int, stride: int, w: int)
    ensures RowsSummed(table, base, stride32, m, s, stride, w, 0)
  {
  }

  lemma SlotOrder(base: int, stride32: int, w: int, n: int, len: int, y: int)
    requires SlotsFit(base, stride32, w, n, len) && 0 <= w
    ensures forall i | 0 <= i < y :: RowStart(base, stride32, i) + 4 * w <= RowStart(base, stride32, y)
  {
    forall i | 0 <= i < y
      ensures RowStart(base, stride32, i) + 4 * w <= RowStart(base, stride32, y)
    {
      SlotsApart(base, stride32, w, i, y);
    }
  }

  // ----- one row of averages

  /** The mean of a box: a single-precision product with the reciprocal, truncated toward zero, then
      cut to a byte. */
  function Average(sum: int, area: int): byte
    requires 0 < area
  {
    (if 0 <= sum then Float32.Quotient(sum, area) else -(Float32.Quotient(-sum, area) as int)) % 0x100
  }

  /** Truncation is toward zero, so a wrapped, negative sum leaves the low byte of the negative mean. */
  lemma NegativeSums(sum: int, area: int)
    requires 0 < area && 0 < sum
    ensures (Average(-sum, area) + Average(sum, area)) % 0x100 == 0
  {
    hide Float32.Quotient;
    Opposite(Float32.Quotient(sum, area));
  }

  lemma Opposite(q: int)
    ensures ((-q) % 0x100 + q % 0x100) % 0x100 == 0
  {
  }

  /** The columns that fit a table row of w pixels. */
  ghost predicate RowFits(t: int, w: int, len: int) {
    0 <= t && t + 4 * w <= len
  }

  /** Entry of column x, channel ch of the table row at t. */
  function At(table: seq<int>, t: int, x: int, ch: int): int {
    var k := t + 4 * x + ch;
    if 0 <= k < |table| then table[k] else 0
  }

  /** The box over columns x0 < x <= x1 between two table rows. */
  function Corner(table: seq<int>, top: int, bot: int, x0: int, x1: int, ch: int): int {
    Wrap32(At(table, bot, x1, ch) + At(table, top, x0, ch) - At(table, bot, x0, ch) - At(table, top, x1, ch))
  }

  /** Pixels 0 .. n of the row at d are averages of boxes k columns wide, the first one
      starting at column 0 of the rows tl and bl. */
  ghost predicate Averaged(dst: seq<byte>, d: int, n: int, table: seq<int>, tl: int, bl: int, k: int, area: int) {
    0 < area ==> forall i, ch | 0 <= i < n && 0 <= ch < 4 ::
      && 0 <= PixelRow(d).At(i, ch) < |dst|
      && dst[PixelRow(d).At(i, ch)] == Average(Corner(table, tl, bl, i, i + k, ch), area)
  }

  /** An empty box has no mean: the division yields no number, and no byte is promised. */
  method AverageByte(sum: int, area: int) returns (b: byte)
    requires 0 <= area
    ensures 0 < area ==> b == Average(sum, area)
  {
    if area == 0 {
      b := *;
    } else {
      b := Average(sum, area);
    }
  }

  /** The addresses of n pixels in a row. */
  ghost function Pixels(d: int, n: nat): seq<int> {
    seq(n, i => d + 4 * i)
  }

  lemma NoPixels(d: int)
    ensures Pixels(d, 0) == []
  {
  }

  lemma PixelsAppend(d: int, x: nat, n: nat)
    ensures Pixels(d, x) + Pixels(d + 4 * x, n) == Pixels(d, x + n)
  {
  }

  /** trace lists the pixels in the order in which they are written. */
  method CumulativeSumToAverageRow(cum: array<int>, tl: int, bl: int, w: int, area: int, dst: array<byte>, d: int,
                                   count: int)
    returns (ghost trace: seq<int>)
    requires 0 <= count && 0 <= area && 0 <= w && w % 4 == 0
    requires 0 <= tl && tl + w + 4 * count <= cum.Length && 0 <= bl && bl + w + 4 * count <= cum.Length
    requires 0 <= d && d + 4 * count <= dst.Length && cum as object != dst as object
    modifies dst
    ensures forall k | 0 <= k < dst.Length && !(d <= k < d + 4 * count) :: dst[k] == old(dst[k])
    ensures Averaged(dst[..], d, count, cum[..], tl, bl, w / 4, area)
    ensures trace == Pixels(d, count)
  {
    hide Average, Wrap32;
    trace := [];
    var i, dp, t, b := 0, d, tl, bl;
    while i < count
      invariant 0 <= i <= count && dp == d + 4 * i && t == tl + 4 * i && b == bl + 4 * i
      invariant forall k | 0 <= k < dst.Length && !(d <= k < d + 4 * i) :: dst[k] == old(dst[k])
      invariant Averaged(dst[..], d, i, cum[..], tl, bl, w / 4, area)
      invariant trace == Pixels(d, i)
    {
      ghost var before := dst[..];
      AveragePixel(cum, t, b, w, area, dst, dp);
      trace := trace + [dp];
      AveragedNext(before, dst[..], d, i, cum[..], tl, bl, w / 4, area);
      dp := dp + 4;
      t := t + 4;
      b := b + 4;
      i := i + 1;
    }
  }

  /** The unrolled body: four channels of one pixel. */
  method AveragePixel(cum: array<int>, t: int, b: int, w: int, area: int, dst: array<byte>, d: int)
    requires 0 <= area && 0 <= w && w % 4 == 0 && cum as object != dst as object
    requires 0 <= t && t + w + 4 <= cum.Length && 0 <= b && b + w + 4 <= cum.Length && 0 <= d && d + 4 <= dst.Length
    modifies dst
    ensures forall k | 0 <= k < dst.Length && !(d <= k < d + 4) :: dst[k] == old(dst[k])
    ensures 0 < area ==>
      && dst[d] == Average(Corner(cum[..], t, b, 0, w / 4, 0), area)
      && dst[d + 1] == Average(Corner(cum[..], t, b, 0, w / 4, 1), area)
      && dst[d + 2] == Average(Corner(cum[..], t, b, 0, w / 4, 2), area)
      && dst[d + 3] == Average(Corner(cum[..], t, b, 0, w / 4, 3), area)
  {
    hide Average, Wrap32;
    dst[d + 0] := AverageByte(Wrap32(cum[b + w + 0] + cum[t + 0] - cum[b + 0] - cum[t + w + 0]), area);
    dst[d + 1] := AverageByte(Wrap32(cum[b + w + 1] + cum[t + 1] - cum[b + 1] - cum[t + w + 1]), area);
    dst[d + 2] := AverageByte(Wrap32(cum[b + w + 2] + cum[t + 2] - cum[b + 2] - cum[t + w + 2]), area);
    dst[d + 3] := AverageByte(Wrap32(cum[b + w + 3] + cum[t + 3] - cum[b + 3] - cum[t + w + 3]), area);
  }

  /** Boxes may be named from any earlier column of the two rows. */
  lemma CornerMoved(table: seq<int>, top: int, bot: int, a: int, x0: int, x1: int, ch: int)
    ensures Corner(table, top + 4 * a, bot + 4 * a, x0, x1, ch) == Corner(table, top, bot, a + x0, a + x1, ch)
  {
  }

  lemma AveragedNext(before: seq<byte>, after: seq<byte>, d: int, i: int, table: seq<int>, tl: int, bl: int, k: int,
                     area: int)
    requires 0 <= i && 0 <= d && d + 4 * i + 4 <= |before| && |after| == |before|
    requires forall j | 0 <= j < |before| && !(d + 4 * i <= j < d + 4 * i + 4) :: after[j] == before[j]
    requires Averaged(before, d, i, table, tl, bl, k, area)
    requires 0 < area ==>
      && after[d + 4 * i] == Average(Corner(table, tl + 4 * i, bl + 4 * i, 0, k, 0), area)
      && after[d + 4 * i + 1] == Average(Corner(table, tl + 4 * i, bl + 4 * i, 0, k, 1), area)
      && after[d + 4 * i + 2] == Average(Corner(table, tl + 4 * i, bl + 4 * i, 0, k, 2), area)
      && after[d + 4 * i + 3] == Average(Corner(table, tl + 4 * i, bl + 4 * i, 0, k, 3), area)
    ensures Averaged(after, d, i + 1, table, tl, bl, k, area)
  {
    hide Average, Corner;
    if 0 < area {
      forall j, ch | 0 <= j < i + 1 && 0 <= ch < 4
        ensures 0 <= PixelRow(d).At(j, ch) < |after|
        ensures after[PixelRow(d).At(j, ch)] == Average(Corner(table, tl, bl, j, j + k, ch), area)
      {
        assert PixelRow(d).At(j, ch) == d + 4 * j + ch;
        if j == i {
          CornerMoved(table, tl, bl, i, 0, k, ch);
          if ch == 0 {} else if ch == 1 {} else if ch == 2 {} else {}
        }
      }
    }
  }

  // ----- the three column phases of one output row

  /** The box of pixel x spans the columns Left < column <= Right. */
  function Left(x: int, r: int): int {
    if x - r - 1 >= 0 then x - r - 1 else 0
  }

  function Right(x: int, r: int, w: int): int {
    if x + r < w then x + r else w - 1
  }

  ghost predicate PixelBlurred(dst: seq<byte>, d: int, table: seq<int>, top: int, bot: int, w: int, r: int, rows: int,
                               x: int, ch: int) {
    && 0 <= d + 4 * x + ch < |dst|
    && 0 < rows * (Right(x, r, w) - Left(x, r))
    && dst[d + 4 * x + ch]
      == Average(Corner(table, top, bot, Left(x, r), Right(x, r, w), ch), rows * (Right(x, r, w) - Left(x, r)))
  }

  ghost predicate RowBlurred(dst: seq<byte>, d: int, n: int, table: seq<int>, top: int, bot: int, w: int, r: int,
                             rows: int) {
    0 < r && 2 * r + 2 <= w && n <= w &&
    (0 < rows ==> forall x, ch | 0 <= x < n && 0 <= ch < 4 :: PixelBlurred(dst, d, table, top, bot, w, r, rows, x, ch))
  }

  /** Extends a blurred row by pixels that share one box shape, k columns from column a + i. */
  lemma PhaseDone(before: seq<byte>, after: seq<byte>, d: int, x: int, n: int, table: seq<int>, top: int, bot: int,
                  w: int, r: int, rows: int,
                  a: int, k: int, area: int)
    requires 0 <= x && 0 <= n && x + n <= w && 0 < k && area == Rect(rows, k) && 0 <= rows
    requires 0 <= d && d + 4 * w <= |before| && |after| == |before|
    requires forall j | 0 <= j < |before| && !(d + 4 * x <= j < d + 4 * x + 4 * n) :: after[j] == before[j]
    requires RowBlurred(before, d, x, table, top, bot, w, r, rows)
    requires Averaged(after, d + 4 * x, n, table, top + 4 * a, bot + 4 * a, k, area)
    requires forall j | x <= j < x + n :: Left(j, r) == a + j - x && Right(j, r, w) == a + j - x + k
    ensures RowBlurred(after, d, x + n, table, top, bot, w, r, rows)
  {
    hide PixelBlurred, Averaged;
    if 0 < rows {
      forall j, ch | 0 <= j < x + n && 0 <= ch < 4
        ensures PixelBlurred(after, d, table, top, bot, w, r, rows, j, ch)
      {
        if j < x {
          PixelBlurredKept(before, after, d, table, top, bot, w, r, rows, j, ch);
        } else {
          PhasePixel(after, d, x, n, table, top, bot, w, r, rows, a, k, area, j, ch);
        }
      }
    }
  }

  lemma PixelBlurredKept(before: seq<byte>, after: seq<byte>, d: int, table: seq<int>, top: int, bot: int, w: int,
                         r: int, rows: int, x: int, ch: int)
    requires PixelBlurred(before, d, table, top, bot, w, r, rows, x, ch) && |after| == |before|
    requires after[d + 4 * x + ch] == before[d + 4 * x + ch]
    ensures PixelBlurred(after, d, table, top, bot, w, r, rows, x, ch)
  {
  }

  lemma PhasePixel(after: seq<byte>, d: int, x: int, n: int, table: seq<int>, top: int, bot: int, w: int, r: int,
                   rows: int,
                   a: int, k: int, area: int, j: int, ch: int)
    requires x <= j < x + n && 0 <= ch < 4 && 0 < k && 0 < rows && area == Rect(rows, k)
    requires Averaged(after, d + 4 * x, n, table, top + 4 * a, bot + 4 * a, k, area)
    requires Left(j, r) == a + j - x && Right(j, r, w) == a + j - x + k
    ensures PixelBlurred(after, d, table, top, bot, w, r, rows, j, ch)
  {
    hide Average, Corner, Left, Right;
    PositiveArea(rows, k);
    var i := j - x;
    assert PixelRow(d + 4 * x).At(i, ch) == d + 4 * j + ch;
    CornerMoved(table, top, bot, a, i, i + k, ch);
  }

  lemma RowBlurredNothing(dst: seq<byte>, d: int, table: seq<int>, top: int, bot: int, w: int, r: int, rows: int)
    requires 0 < r && 2 * r + 2 <= w
    ensures RowBlurred(dst, d, 0, table, top, bot, w, r, rows)
  {
  }

  lemma PositiveArea(rows: int, k: int)
    requires 0 < rows && 0 < k
    ensures 0 < rows * k
  {
  }

  function Rect(rows: int, k: int): int {
    rows * k
  }

  /** trace lists the pixels in the order in which they are written: each column once, from the left. */
  method BlurRow(cum: array<int>, top: int, bot: int, w: int, r: int, rows: int, dst: array<byte>, d: int)
    returns (ghost trace: seq<int>)
    requires 0 < r && 2 * r + 2 <= w && 0 <= rows && cum as object != dst as object
    requires RowFits(top, w, cum.Length) && RowFits(bot, w, cum.Length) && 0 <= d && d + 4 * w <= dst.Length
    modifies dst
    ensures forall k | 0 <= k < dst.Length && !(d <= k < d + 4 * w) :: dst[k] == old(dst[k])
    ensures RowBlurred(dst[..], d, w, cum[..], top, bot, w, r, rows)
    ensures trace == Pixels(d, w)
  {
    hide Average, Corner, Averaged, RowBlurred, Pixels, Rect;
    trace := [];
    NoPixels(d);
    ghost var table := cum[..];
    RowBlurredNothing(dst[..], d, table, top, bot, w, r, rows);
    var area, boxwidth, x := r * rows, r * 4, 0;
    AreaStep(rows, r);
    // Boxes that the left border cuts off: each one wider than the last.
    while x < r + 1
      invariant 0 <= x <= r + 1 && area == Rect(rows, r + x) && boxwidth == 4 * (r + x)
      invariant forall k | 0 <= k < dst.Length && !(d <= k < d + 4 * x) :: dst[k] == old(dst[k])
      invariant RowBlurred(dst[..], d, x, table, top, bot, w, r, rows)
      invariant trace == Pixels(d, x)
    {
      ghost var before := dst[..];
      AreaStep(rows, r + x);
      ghost var one := CumulativeSumToAverageRow(cum, top, bot, boxwidth, area, dst, d + x * 4, 1);
      PixelsAppend(d, x, 1);
      trace := trace + one;
      PhaseDone(before, dst[..], d, x, 1, table, top, bot, w, r, rows, 0, r + x, area);
      area := area + rows;
      boxwidth := boxwidth + 4;
      x := x + 1;
    }
    // Boxes of full width, in one call.
    ghost var before := dst[..];
    var n := (w - 1) - r - x + 1;
    AreaStep(rows, 2 * r + 1);
    ghost var run := CumulativeSumToAverageRow(cum, top, bot, boxwidth, area, dst, d + x * 4, n);
    PixelsAppend(d, x, n);
    trace := trace + run;
    PhaseDone(before, dst[..], d, x, n, table, top, bot, w, r, rows, 0, 2 * r + 1, area);
    // Boxes that the right border cuts off.
    x := x + n;
    while x <= w - 1
      invariant w - r <= x <= w && area == Rect(rows, r + w - x + 1) && boxwidth == 4 * (r + w - x + 1)
      invariant forall k | 0 <= k < dst.Length && !(d <= k < d + 4 * x) :: dst[k] == old(dst[k])
      invariant RowBlurred(dst[..], d, x, table, top, bot, w, r, rows)
      invariant trace == Pixels(d, x)
    {
      before := dst[..];
      AreaStep(rows, r + w - x);
      area := area - rows;
      boxwidth := boxwidth - 4;
      ghost var one :=
        CumulativeSumToAverageRow(cum, top + (x - r - 1) * 4, bot + (x - r - 1) * 4, boxwidth, area, dst, d + x * 4, 1);
      PixelsAppend(d, x, 1);
      trace := trace + one;
      PhaseDone(before, dst[..], d, x, 1, table, top, bot, w, r, rows, x - r - 1, r + w - x, area);
      x := x + 1;
    }
  }

  lemma AreaStep(rows: int, k: int)
    requires 0 <= rows && 0 <= k
    ensures 0 <= Rect(rows, k) == k * rows && Rect(rows, k + 1) == Rect(rows, k) + rows
  {
  }

  // ----- the table as a ring of 2 * radius + 2 rows

  /** The rows Top < row <= Bottom are averaged for output row y. */
  function Top(y: int, r: int): int {
    if y - r - 1 >= 0 then y - r - 1 else 0
  }

  function Bottom(y: int, r: int, h: int): int {
    if y + r < h then y + r else h - 1
  }

  /** Image rows lo .. hi are all present, each in the slot of its number modulo n. */
  ghost predicate Live(table: seq<int>, base: int, stride32: int, n: int, m: seq<byte>, off: int, stride: int, w: int,
                       lo: int, hi: int)
    requires 0 < n
  {
    forall i | lo <= i <= hi :: Summed(table, RowStart(base, stride32, i % n), m, off, stride, w, i + 1)
  }

  lemma ModSmall(i: int, n: int)
    requires 0 <= i < n
    ensures i % n == i
  {
  }

  lemma ModDiffers(i: int, j: int, n: int)
    requires 0 < n && i < j < i + n
    ensures i % n != j % n
  {
    if i % n == j % n {
      assert i == n * (i / n) + i % n && j == n * (j / n) + j % n;
      assert j - i == n * (j / n - i / n);
      QuotientGap(n, j / n - i / n);
    }
  }

  lemma QuotientGap(n: int, q: int)
    requires 0 < n
    ensures n * q <= 0 || n <= n * q
  {
    if q >= 1 {
      assert n * q == n + n * (q - 1) && n * (q - 1) >= 0;
    } else {
      assert n * -q >= 0;
    }
  }

  lemma ModNext(i: int, n: int)
    requires 0 < n && 0 <= i
    ensures (i + 1) % n == if i % n + 1 == n then 0 else i % n + 1
  {
    var q := i / n;
    assert i + 1 == n * q + (i % n + 1);
    if i % n + 1 == n {
      assert i + 1 == n * (q + 1);
    }
    ModOf(i + 1, n, if i % n + 1 == n then q + 1 else q);
  }

  lemma ModOf(i: int, n: int, q: int)
    requires 0 < n && 0 <= i - n * q < n
    ensures i % n == i - n * q
  {
    var d := i / n - q;
    assert i == n * (i / n) + i % n;
    assert n * d == i - n * q - i % n;
    QuotientGap(n, d);
    QuotientGap(n, -d);
    assert n * -d == -(n * d);
  }

  /** Stepping a row pointer with wrap-around moves it to the next slot of the ring. */
  lemma SlotNext(base: int, stride32: int, n: int, i: int)
    requires 0 < stride32 && 0 < n && 0 <= i
    ensures var p := RowStart(base, stride32, i % n) + stride32;
      (if p >= RowStart(base, stride32, n) then base else p) == RowStart(base, stride32, (i + 1) % n)
  {
    ModNext(i, n);
    var k := i % n + 1;
    assert k * stride32 == i % n * stride32 + stride32;
    if k < n {
      assert n * stride32 == k * stride32 + (n - k) * stride32;
      assert (n - k) * stride32 > 0;
    }
  }

  lemma SlotModApart(base: int, stride32: int, w: int, i: int, j: int, n: int)
    requires 0 <= w && 4 * w <= stride32 && 0 < n && i < j < i + n
    ensures var p, q := RowStart(base, stride32, i % n), RowStart(base, stride32, j % n);
      p + 4 * w <= q || q + 4 * w <= p
  {
    ModDiffers(i, j, n);
    if i % n < j % n {
      SlotsApart(base, stride32, w, i % n, j % n);
    } else {
      SlotsApart(base, stride32, w, j % n, i % n);
    }
  }

  /** Refilling a slot destroys only the row that is n older. */
  lemma LiveNext(before: seq<int>, after: seq<int>, base: int, stride32: int, n: int, m: seq<byte>, off: int,
                 stride: int, w: int, lo: int, hi: int)
    requires 0 < n && 0 <= w && 4 * w <= stride32 && hi + 2 - n <= lo
    requires Live(before, base, stride32, n, m, off, stride, w, lo, hi) && |after| == |before|
    requires var p := RowStart(base, stride32, (hi + 1) % n);
      forall k | 0 <= k < |before| && !(p <= k < p + 4 * w) :: after[k] == before[k]
    requires Summed(after, RowStart(base, stride32, (hi + 1) % n), m, off, stride, w, hi + 2)
    ensures Live(after, base, stride32, n, m, off, stride, w, lo, hi + 1)
  {
    hide Summed;
    forall i | lo <= i <= hi
      ensures Summed(after, RowStart(base, stride32, i % n), m, off, stride, w, i + 1)
    {
      SlotModApart(base, stride32, w, i, hi + 1, n);
      SummedInside(before, RowStart(base, stride32, i % n), m, off, stride, w, i + 1);
      SummedKept(before, after, RowStart(base, stride32, i % n), m, off, stride, w, i + 1);
    }
  }

  lemma SummedInside(table: seq<int>, p: int, m: seq<byte>, off: int, stride: int, w: int, k: int)
    requires Summed(table, p, m, off, stride, w, k)
    ensures 0 <= p && p + 4 * w <= |table|
  {
  }

  /** Moves the top row pointer on, unless it still stands at row 0. */
  method AdvanceTop(top: int, base: int, stride32: int, maxBot: int, topY: int, ghost n: int) returns (newTop: int)
    requires 0 < stride32 && 0 < n && maxBot == RowStart(base, stride32, n) && 0 <= topY
    requires top == RowStart(base, stride32, (if topY == 0 then 0 else topY - 1) % n)
    ensures newTop == RowStart(base, stride32, topY % n)
  {
    newTop := top;
    if topY != 0 {
      SlotNext(base, stride32, n, topY - 1);
      newTop := newTop + stride32;
      if newTop >= maxBot {
        newTop := base;
      }
    }
  }

  /** Advances the bottom row of the ring and fills it with image row hi + 1. */
  method FillNextRow(src: array<byte>, s: int, stride: int, cum: array<int>, base: int, stride32: int, width: int,
                     maxBot: int, ghost n: int,
                     bot: int, sp: int, ghost lo: int, ghost hi: int, ghost height: int) returns (newBot: int)
    requires 0 < width && 2 <= n && 0 <= lo <= hi && hi + 1 < height && hi + 2 - n <= lo
    requires SlotsFit(base, stride32, width, if height < n then height else n, cum.Length)
    requires InBounds(Plane(s, stride), 4 * width, height, src.Length) && sp == RowStart(s, stride, hi + 1)
    requires bot == RowStart(base, stride32, hi % n) && maxBot == RowStart(base, stride32, n)
    requires Live(cum[..], base, stride32, n, src[..], s, stride, width, lo, hi)
    modifies cum
    ensures newBot == RowStart(base, stride32, (hi + 1) % n)
    ensures forall k | 0 <= k < cum.Length && !(newBot <= k < newBot + 4 * width) :: cum[k] == old(cum[k])
    ensures Live(cum[..], base, stride32, n, src[..], s, stride, width, lo, hi + 1)
  {
    hide *;
    ghost var before := cum[..];
    StrideFits(base, stride32, width, if height < n then height else n, cum.Length);
    SlotNext(base, stride32, n, hi);
    newBot := bot + stride32;
    if newBot >= maxBot {
      newBot := base;
    }
    PlaneRow(s, stride, 4 * width, height, src.Length, hi + 1);
    RowStartIs(s, stride, hi + 1);
    ModInside(hi + 1, n, height);
    SlotInside(base, stride32, width, if height < n then height else n, cum.Length, (hi + 1) % n);
    LiveAt(before, base, stride32, n, src[..], s, stride, width, lo, hi, hi);
    SummedInside(before, RowStart(base, stride32, hi % n), src[..], s, stride, width, hi + 1);
    SlotModApart(base, stride32, width, hi, hi + 1, n);
    ComputeCumulativeSumRow(src, sp, cum, newBot, bot, width, stride);
    SummedNext(before, cum[..], newBot, bot, src[..], s, stride, width, hi + 1);
    LiveNext(before, cum[..], base, stride32, n, src[..], s, stride, width, lo, hi);
  }

  lemma StrideFits(base: int, stride32: int, w: int, n: int, len: int)
    requires SlotsFit(base, stride32, w, n, len)
    ensures 4 * w <= stride32
  {
  }

  lemma ModInside(i: int, n: int, h: int)
    requires 0 <= i < h && 0 < n
    ensures 0 <= i % n < (if h < n then h else n)
  {
    if h < n {
      ModSmall(i, n);
    }
  }

  lemma LiveAt(table: seq<int>, base: int, stride32: int, n: int, m: seq<byte>, off: int, stride: int, w: int, lo: int,
               hi: int, i: int)
    requires 0 < n && lo <= i <= hi && Live(table, base, stride32, n, m, off, stride, w, lo, hi)
    ensures Summed(table, RowStart(base, stride32, i % n), m, off, stride, w, i + 1)
  {
  }

  lemma LiveShrink(table: seq<int>, base: int, stride32: int, n: int, m: seq<byte>, off: int, stride: int, w: int,
                   lo: int, lo': int, hi: int)
    requires 0 < n && lo <= lo' && Live(table, base, stride32, n, m, off, stride, w, lo, hi)
    ensures Live(table, base, stride32, n, m, off, stride, w, lo', hi)
  {
  }

  // ----- ARGBBlur

  /** The radius after the clamps. */
  function Radius(w: int, h: int, radius: int): int {
    var r := if radius > h then h else radius;
    if r > w / 2 - 1 then w / 2 - 1 else r
  }

  /** It is the largest radius up to the one asked for that is no more than the height and for which two
      boxes of radius columns and two columns more fit the width. */
  lemma RadiusLargest(w: int, h: int, radius: int)
    ensures var r := Radius(w, h, radius);
      && r <= radius && r <= h && 2 * r + 2 <= w
      && forall q | q <= radius && q <= h && 2 * q + 2 <= w :: q <= r
    ensures Radius(w, h, radius) == radius <==> radius <= h && 2 * radius + 2 <= w
    ensures 0 < Radius(w, h, radius) <==> 1 <= radius && 1 <= h && 4 <= w
  {
  }

  function BoxArea(x: int, y: int, w: int, h: int, r: int): int {
    (Bottom(y, r, h) - Top(y, r)) * (Right(x, r, w) - Left(x, r))
  }

  /** One byte of the blurred image: the mean of one channel over the box of pixel (x, y). */
  function BlurByte(m: seq<byte>, off: int, stride: int, w: int, h: int, r: int, x: int, y: int, ch: int): byte
    requires 0 < BoxArea(x, y, w, h, r)
  {
    Average(Wrap32(BoxSum(m, Channel(off, stride, ch), Left(x, r) + 1, Right(x, r, w) + 1, Top(y, r) + 1,
                          Bottom(y, r, h) + 1)),
            BoxArea(x, y, w, h, r))
  }

  ghost predicate ByteResult(dst: seq<byte>, d: int, m: seq<byte>, off: int, stride: int, w: int, h: int, r: int,
                             x: int, y: int, ch: int) {
    && 0 <= d + 4 * x + ch < |dst|
    && 0 < BoxArea(x, y, w, h, r)
    && dst[d + 4 * x + ch] == BlurByte(m, off, stride, w, h, r, x, y, ch)
  }

  /** Row y of the blurred image stands at d.  An image of a single row has empty boxes. */
  ghost predicate RowResult(dst: seq<byte>, d: int, m: seq<byte>, off: int, stride: int, w: int, h: int, r: int,
                            y: int) {
    2 <= h ==> forall x, ch | 0 <= x < w && 0 <= ch < 4 :: ByteResult(dst, d, m, off, stride, w, h, r, x, y, ch)
  }

  /** No division by zero, exactly when the image has more than one row. */
  lemma BoxNotEmpty(x: int, y: int, w: int, h: int, r: int)
    requires 0 < r && 2 * r + 2 <= w && 0 <= x < w && 0 <= y < h
    ensures 0 <= Left(x, r) < Right(x, r, w) < w && 0 <= Top(y, r) <= Bottom(y, r, h) < h
    ensures 0 < Bottom(y, r, h) - Top(y, r) <==> 2 <= h
    ensures 0 < BoxArea(x, y, w, h, r) <==> 2 <= h
  {
    var a, b := Bottom(y, r, h) - Top(y, r), Right(x, r, w) - Left(x, r);
    if 0 < a {
      PositiveArea(a, b);
    } else {
      assert a == 0;
    }
  }

  lemma CornerIsBox(table: seq<int>, top: int, bot: int, m: seq<byte>, off: int, stride: int, w: int, x0: int, x1: int,
                    y0: int, y1: int, ch: int)
    requires 0 <= x0 <= x1 < w && 0 <= y0 <= y1 && 0 <= ch < 4
    requires Summed(table, top, m, off, stride, w, y0 + 1) && Summed(table, bot, m, off, stride, w, y1 + 1)
    ensures Corner(table, top, bot, x0, x1, ch)
      == Wrap32(BoxSum(m, Channel(off, stride, ch), x0 + 1, x1 + 1, y0 + 1, y1 + 1))
  {
    var v := Channel(off, stride, ch);
    EntryAt(table, top, m, off, stride, w, y0 + 1, x0, ch);
    EntryAt(table, top, m, off, stride, w, y0 + 1, x1, ch);
    EntryAt(table, bot, m, off, stride, w, y1 + 1, x0, ch);
    EntryAt(table, bot, m, off, stride, w, y1 + 1, x1, ch);
    hide Summed, At, Wrap32, Prefix, BoxSum;
    WrapCorners(Prefix(m, v, x1 + 1, y1 + 1), Prefix(m, v, x0 + 1, y0 + 1), Prefix(m, v, x0 + 1, y1 + 1),
                Prefix(m, v, x1 + 1, y0 + 1));
    FourCorners(m, v, x0 + 1, x1 + 1, y0 + 1, y1 + 1);
  }

  lemma EntryAt(table: seq<int>, p: int, m: seq<byte>, off: int, stride: int, w: int, k: int, x: int, ch: int)
    requires Summed(table, p, m, off, stride, w, k) && 0 <= x < w && 0 <= ch < 4
    ensures At(table, p, x, ch) == Wrap32(Prefix(m, Channel(off, stride, ch), x + 1, k))
  {
    assert PixelRow(p).At(x, ch) == p + 4 * x + ch;
  }

  lemma ByteMeansBox(dst: seq<byte>, d: int, table: seq<int>, top: int, bot: int, m: seq<byte>, off: int, stride: int,
                     w: int, h: int, r: int,
                     y: int, x: int, ch: int)
    requires 0 < r && 2 * r + 2 <= w && 0 <= y < h && 2 <= h && 0 <= x < w && 0 <= ch < 4
    requires RowBlurred(dst, d, w, table, top, bot, w, r, Bottom(y, r, h) - Top(y, r))
    requires Summed(table, top, m, off, stride, w, Top(y, r) + 1)
    requires Summed(table, bot, m, off, stride, w, Bottom(y, r, h) + 1)
    ensures ByteResult(dst, d, m, off, stride, w, h, r, x, y, ch)
  {
    hide Average, Wrap32, Summed, BoxSum, Corner, Channel;
    BoxNotEmpty(x, y, w, h, r);
    assert PixelBlurred(dst, d, table, top, bot, w, r, Bottom(y, r, h) - Top(y, r), x, ch);
    CornerIsBox(table, top, bot, m, off, stride, w, Left(x, r), Right(x, r, w), Top(y, r), Bottom(y, r, h), ch);
    hide Left, Right, Top, Bottom;
    assert dst[d + 4 * x + ch]
      == Average(Corner(table, top, bot, Left(x, r), Right(x, r, w), ch), BoxArea(x, y, w, h, r));
  }

  lemma RowMeansBox(dst: seq<byte>, d: int, table: seq<int>, top: int, bot: int, m: seq<byte>, off: int, stride: int,
                    w: int, h: int, r: int, y: int)
    requires 0 < r && 2 * r + 2 <= w && 0 <= y < h
    requires RowBlurred(dst, d, w, table, top, bot, w, r, Bottom(y, r, h) - Top(y, r))
    requires Summed(table, top, m, off, stride, w, Top(y, r) + 1)
    requires Summed(table, bot, m, off, stride, w, Bottom(y, r, h) + 1)
    ensures RowResult(dst, d, m, off, stride, w, h, r, y)
  {
    hide Summed, RowBlurred, Top, Bottom, ByteResult;
    if 2 <= h {
      forall x, ch | 0 <= x < w && 0 <= ch < 4
        ensures ByteResult(dst, d, m, off, stride, w, h, r, x, y, ch)
      {
        ByteMeansBox(dst, d, table, top, bot, m, off, stride, w, h, r, y, x, ch);
      }
    }
  }

  lemma RowResultKept(before: seq<byte>, after: seq<byte>, d: int, m: seq<byte>, off: int, stride: int, w: int, h: int,
                      r: int, y: int)
    requires RowResult(before, d, m, off, stride, w, h, r, y) && |after| == |before|
    requires forall k | d <= k < d + 4 * w && 0 <= k < |before| :: after[k] == before[k]
    ensures RowResult(after, d, m, off, stride, w, h, r, y)
  {
    hide ByteResult;
    if 2 <= h {
      forall x, ch | 0 <= x < w && 0 <= ch < 4
        ensures ByteResult(after, d, m, off, stride, w, h, r, x, y, ch)
      {
        ByteResultKept(before, after, d, m, off, stride, w, h, r, x, y, ch);
      }
    }
  }

  lemma ByteResultKept(before: seq<byte>, after: seq<byte>, d: int, m: seq<byte>, off: int, stride: int, w: int, h: int,
                       r: int, x: int, y: int, ch: int)
    requires ByteResult(before, d, m, off, stride, w, h, r, x, y, ch) && |after| == |before| && 0 <= x < w
    requires 0 <= ch < 4
    requires forall k | d <= k < d + 4 * w && 0 <= k < |before| :: after[k] == before[k]
    ensures ByteResult(after, d, m, off, stride, w, h, r, x, y, ch)
  {
  }

  /** The rows of the table that are used: all of the ring, or fewer for a low image. */
  function SlotCount(r: int, h: int): (n: int)
    ensures n <= h && n <= 2 * r + 2 && (n == h || n == 2 * r + 2)
  {
    if h < 2 * r + 2 then h else 2 * r + 2
  }

  /** What a run of the blur needs of its caller. */
  ghost predicate BlurRoom(srcLen: int, s: int, stride: int, dstLen: int, d: int, dstStride: int, cumLen: int,
                           base: int, stride32: int,
                           w: int, h: int, r: int)
  {
    && InBounds(Plane(s, stride), 4 * w, h, srcLen)
    && InBounds(Plane(d, dstStride), 4 * w, h, dstLen) && Distinct(Plane(d, dstStride), 4 * w, h)
    && SlotsFit(base, stride32, w, SlotCount(r, h), cumLen)
  }

  method ARGBBlur(src: array?<byte>, s: int, stride: int, dst: array?<byte>, d: int, dstStride: int,
                  cum: array<int>, base: int, stride32: int, width: int, height: int, radius: int) returns (ret: int)
    requires src != null && dst != null ==> src != dst && cum as object != dst as object
    requires src != null && dst != null && 0 < width && height != 0 && 0 < Radius(width, Abs(height), radius) ==>
      BlurRoom(src.Length, s, stride, dst.Length, d, dstStride, cum.Length, base, stride32, width, Abs(height),
               Radius(width, Abs(height), radius))
    modifies dst, cum
    ensures ret == (if src != null && dst != null && 4 <= width && height != 0 && 1 <= radius then 0 else -1)
    ensures ret == 0 ==> var r := Radius(width, Abs(height), radius);
      && 1 <= r <= radius && r <= Abs(height) && 2 * r + 2 <= width
      && forall q | q <= radius && q <= Abs(height) && 2 * q + 2 <= width :: q <= r
    ensures ret == -1 && dst != null ==> dst[..] == old(dst[..])
    ensures ret == 0 ==> OnlyChanged(old(dst[..]), dst[..], Plane(d, dstStride), 4 * width, Abs(height))
    ensures ret == 0 ==> var v := Upright(Plane(s, stride), height);
      forall y | 0 <= y < Abs(height) ::
        RowResult(dst[..], RowStart(d, dstStride, y), src[..], v.off, v.dy, width, Abs(height),
                  Radius(width, Abs(height), radius), y)
    ensures ret == -1 ==> cum[..] == old(cum[..])
    ensures ret == 0 ==>
      OnlyChanged(old(cum[..]), cum[..], Plane(base, stride32), 4 * width,
                  SlotCount(Radius(width, Abs(height), radius), Abs(height)))
  {
    if src == null || dst == null || width <= 0 || height == 0 {
      return -1;
    }
    RadiusLargest(width, Abs(height), radius);
    var h, sp, ss := height, s, stride;
    if h < 0 {
      h := -h;
      sp := sp + (h - 1) * ss;
      ss := -ss;
    }
    var r := radius;
    if r > h {
      r := h;
    }
    if r > width / 2 - 1 {
      r := width / 2 - 1;
    }
    if r <= 0 {
      return -1;
    }
    hide View.At, InBounds, Distinct, SlotsFit, OnlyChanged, RowResult;
    if height < 0 {
      FlipBounds(Plane(s, stride), 4 * width, h, src.Length);
      FlippedPlane(s, stride, h);
    }
    BlurRows(src, sp, ss, dst, d, dstStride, cum, base, stride32, width, h, r);
    return 0;
  }

  /** How the two rows of the ring move from one output row to the next. */
  lemma RingIndices(y: int, r: int, h: int)
    requires 0 < r <= h && 0 <= y < h
    ensures 0 <= Bottom(y - 1, r, h) < h && 0 <= Bottom(y, r, h) < h
    ensures Bottom(y, r, h) == (if y + r < h then Bottom(y - 1, r, h) + 1 else Bottom(y - 1, r, h))
    ensures Top(y, r) == 0 ==> Top(y - 1, r) == 0
    ensures Top(y, r) != 0 ==> 0 <= Top(y - 1, r) == Top(y, r) - 1
    ensures 0 <= Bottom(y, r, h) - (2 * r + 1) <= Top(y, r) || Bottom(y, r, h) - (2 * r + 1) <= 0 <= Top(y, r)
    ensures Top(y, r) <= Bottom(y, r, h)
  {
  }

  lemma RingStart(base: int, stride32: int, r: int, h: int)
    requires 0 < r <= h
    ensures Bottom(-1, r, h) == r - 1 && Top(-1, r) == 0
    ensures RowStart(base, stride32, (r - 1) % (2 * r + 2)) == base + (r - 1) * stride32
    ensures RowStart(base, stride32, 0 % (2 * r + 2)) == base
  {
    ModSmall(r - 1, 2 * r + 2);
    ModSmall(0, 2 * r + 2);
  }

  lemma FirstLive(table: seq<int>, base: int, stride32: int, n: int, m: seq<byte>, off: int, stride: int, w: int,
                  r: int)
    requires 0 < r < n
    requires forall i | 0 <= i < r :: Summed(table, RowStart(base, stride32, i), m, off, stride, w, i + 1)
    ensures Live(table, base, stride32, n, m, off, stride, w, 0, r - 1)
  {
    hide Summed;
    forall i | 0 <= i <= r - 1
      ensures Summed(table, RowStart(base, stride32, i % n), m, off, stride, w, i + 1)
    {
      ModSmall(i, n);
    }
  }

  /** The ring after y output rows: the two row pointers, the source pointer, and the image
      rows present. */
  ghost predicate RingState(table: seq<int>, base: int, stride32: int, m: seq<byte>, s: int, stride: int, w: int,
                            h: int, r: int, y: int,
                            top: int, bot: int, sp: int)
    requires 0 < r
  {
    var n, hi := 2 * r + 2, Bottom(y - 1, r, h);
    && top == RowStart(base, stride32, Top(y - 1, r) % n)
    && bot == RowStart(base, stride32, hi % n)
    && sp == RowStart(s, stride, hi + 1)
    && Live(table, base, stride32, n, m, s, stride, w, if hi + 1 - n > 0 then hi + 1 - n else 0, hi)
  }

  /** The first half of the row loop: step both row pointers round the ring and, unless the
      image is exhausted, fill in one row of the table. */
  method AdvanceRing(src: array<byte>, s: int, stride: int, cum: array<int>, base: int, stride32: int, width: int,
                     height: int, r: int, y: int,
                     top: int, bot: int, sp: int, maxBot: int) returns (top': int, bot': int, sp': int)
    requires 0 < r <= height && 0 < width && 0 <= y < height && maxBot == RowStart(base, stride32, 2 * r + 2)
    requires InBounds(Plane(s, stride), 4 * width, height, src.Length)
    requires SlotsFit(base, stride32, width, SlotCount(r, height), cum.Length)
    requires RingState(cum[..], base, stride32, src[..], s, stride, width, height, r, y, top, bot, sp)
    modifies cum
    ensures RingState(cum[..], base, stride32, src[..], s, stride, width, height, r, y + 1, top', bot', sp')
    ensures Top(y, r) <= Bottom(y, r, height)
    ensures Summed(cum[..], top', src[..], s, stride, width, Top(y, r) + 1)
    ensures Summed(cum[..], bot', src[..], s, stride, width, Bottom(y, r, height) + 1)
    ensures OnlyChanged(old(cum[..]), cum[..], Plane(base, stride32), 4 * width, SlotCount(r, height))
  {
    hide View.At, InBounds, SlotsFit, RowStart, Live, Summed, Top, Bottom, OnlyChanged;
    ghost var before := cum[..];
    OnlyChangedSame(before, Plane(base, stride32), 4 * width, SlotCount(r, height));
    ghost var n, hi := 2 * r + 2, Bottom(y - 1, r, height);
    ghost var lo := if hi + 1 - n > 0 then hi + 1 - n else 0;
    StrideFits(base, stride32, width, if height < n then height else n, cum.Length);
    RingIndices(y, r, height);
    top' := AdvanceTop(top, base, stride32, maxBot, Top(y, r), n);
    bot', sp' := bot, sp;
    if y + r < height {
      ghost var newLo := if hi + 2 - n > 0 then hi + 2 - n else 0;
      LiveShrink(cum[..], base, stride32, n, src[..], s, stride, width, lo, newLo, hi);
      bot' := FillNextRow(src, s, stride, cum, base, stride32, width, maxBot, n, bot, sp, newLo, hi, height);
      ModInside(hi + 1, n, height);
      SlotWritten(before, before, cum[..], base, stride32, width, SlotCount(r, height), (hi + 1) % n);
      NextRow(s, stride, hi + 1);
      sp' := sp' + stride;
      lo, hi := newLo, hi + 1;
    }
    LiveAt(cum[..], base, stride32, n, src[..], s, stride, width, lo, hi, Top(y, r));
    LiveAt(cum[..], base, stride32, n, src[..], s, stride, width, lo, hi, Bottom(y, r, height));
  }

  /** The body of ARGBBlur once its arguments are clamped. */
  method BlurRows(src: array<byte>, s: int, stride: int, dst: array<byte>, d: int, dstStride: int,
                  cum: array<int>, base: int, stride32: int, width: int, height: int, r: int)
    requires src != dst && cum as object != dst as object
    requires 0 < r <= height && 2 * r + 2 <= width
    requires BlurRoom(src.Length, s, stride, dst.Length, d, dstStride, cum.Length, base, stride32, width, height, r)
    modifies dst, cum
    ensures OnlyChanged(old(dst[..]), dst[..], Plane(d, dstStride), 4 * width, height)
    ensures forall y | 0 <= y < height ::
      RowResult(dst[..], RowStart(d, dstStride, y), src[..], s, stride, width, height, r, y)
    ensures OnlyChanged(old(cum[..]), cum[..], Plane(base, stride32), 4 * width, SlotCount(r, height))
  {
    hide View.At, InBounds, Distinct, SlotsFit, RowStart, OnlyChanged, RowResult, RingState, Summed;
    ghost var d0, m, table := dst[..], src[..], cum[..];
    // Compute enough of the table for the first row; after this one row is updated at a time.
    FirstRowsFit(base, stride32, width, height, r, cum.Length, Plane(s, stride), src.Length);
    var _ := ARGBComputeCumulativeSum(src, s, stride, cum, base, stride32, width, r);
    OnlyChangedWider(table, cum[..], Plane(base, stride32), 4 * width, r, 4 * width, SlotCount(r, height));
    FirstRing(cum[..], base, stride32, m, s, stride, width, height, r);
    RowStartIs(d, dstStride, 0);
    OnlyChangedSame(d0, Plane(d, dstStride), 4 * width, height);
    var sp := s + r * stride;
    var bot, top, maxBot := base + (r - 1) * stride32, base, base + (r * 2 + 2) * stride32;
    var dp, y := d, 0;
    while y < height
      invariant 0 <= y <= height && dp == RowStart(d, dstStride, y)
      invariant RingState(cum[..], base, stride32, m, s, stride, width, height, r, y, top, bot, sp)
      invariant OnlyChanged(d0, dst[..], Plane(d, dstStride), 4 * width, height)
      invariant OnlyChanged(table, cum[..], Plane(base, stride32), 4 * width, SlotCount(r, height))
      invariant forall i | 0 <= i < y ::
        RowResult(dst[..], RowStart(d, dstStride, i), m, s, stride, width, height, r, i)
    {
      ghost var now := cum[..];
      top, bot, sp := AdvanceRing(src, s, stride, cum, base, stride32, width, height, r, y, top, bot, sp, maxBot);
      OnlyChangedOn(table, now, cum[..], Plane(base, stride32), 4 * width, SlotCount(r, height));
      BlurAndKeep(cum, top, bot, dst, d, dstStride, dp, width, height, r, y, d0, m, s, stride);
      NextRow(d, dstStride, y);
      dp := dp + dstStride;
      y := y + 1;
    }
  }

  lemma FirstRowsFit(base: int, stride32: int, w: int, h: int, r: int, len: int, v: View, srcLen: int)
    requires 0 < r <= h && InBounds(v, 4 * w, h, srcLen) && SlotsFit(base, stride32, w, SlotCount(r, h), len)
    ensures SlotsFit(base, stride32, w, r, len) && InBounds(v, 4 * w, r, srcLen)
  {
  }

  lemma FirstRing(table: seq<int>, base: int, stride32: int, m: seq<byte>, s: int, stride: int, w: int, h: int, r: int)
    requires 0 < r <= h && RowsSummed(table, base, stride32, m, s, stride, w, r)
    ensures RingState(table, base, stride32, m, s, stride, w, h, r, 0, base, base + (r - 1) * stride32, s + r * stride)
    ensures base + (r * 2 + 2) * stride32 == RowStart(base, stride32, 2 * r + 2)
  {
    hide Summed;
    FirstLive(table, base, stride32, 2 * r + 2, m, s, stride, w, r);
    RingStart(base, stride32, r, h);
    RowStartIs(s, stride, r);
    RowStartIs(base, stride32, 2 * r + 2);
    hide *;
  }

  /** Averages one output row; the rows already written stay as they are. */
  method BlurAndKeep(cum: array<int>, top: int, bot: int, dst: array<byte>, ghost d: int, ghost dstStride: int, dp: int,
                     width: int, height: int, r: int, y: int, ghost d0: seq<byte>, ghost m: seq<byte>, ghost s: int,
                     ghost stride: int)
    requires cum as object != dst as object && 0 < r && 2 * r + 2 <= width && 0 <= y < height
    requires dp == RowStart(d, dstStride, y)
    requires InBounds(Plane(d, dstStride), 4 * width, height, dst.Length)
    requires Distinct(Plane(d, dstStride), 4 * width, height)
    requires Top(y, r) <= Bottom(y, r, height)
    requires Summed(cum[..], top, m, s, stride, width, Top(y, r) + 1)
    requires Summed(cum[..], bot, m, s, stride, width, Bottom(y, r, height) + 1)
    requires OnlyChanged(d0, dst[..], Plane(d, dstStride), 4 * width, height)
    requires forall i | 0 <= i < y :: RowResult(dst[..], RowStart(d, dstStride, i), m, s, stride, width, height, r, i)
    modifies dst
    ensures OnlyChanged(d0, dst[..], Plane(d, dstStride), 4 * width, height)
    ensures forall i | 0 <= i < y + 1 ::
      RowResult(dst[..], RowStart(d, dstStride, i), m, s, stride, width, height, r, i)
  {
    hide *;
    ghost var before := dst[..];
    SummedInside(cum[..], top, m, s, stride, width, Top(y, r) + 1);
    SummedInside(cum[..], bot, m, s, stride, width, Bottom(y, r, height) + 1);
    RowFitsIf(top, width, cum.Length);
    RowFitsIf(bot, width, cum.Length);
    PlaneRow(d, dstStride, 4 * width, height, dst.Length, y);
    RowStartIs(d, dstStride, y);
    ghost var trace := BlurRow(cum, top, bot, width, r, Bottom(y, r, height) - Top(y, r), dst, dp);
    RowMeansBox(dst[..], dp, cum[..], top, bot, m, s, stride, width, height, r, y);
    PlaneDown(d, dstStride, y);
    RowOnlyChanged(before, dst[..], dp, dstStride, 4 * width);
    OnlyChangedPart(d0, before, dst[..], Plane(d, dstStride), 4 * width, height, 0, y, 4 * width, 1);
    forall i | 0 <= i < y
      ensures RowResult(dst[..], RowStart(d, dstStride, i), m, s, stride, width, height, r, i)
    {
      PlaneRowsApart(d, dstStride, 4 * width, height, i, y);
      RowStartIs(d, dstStride, i);
      RowResultKept(before, dst[..], RowStart(d, dstStride, i), m, s, stride, width, height, r, i);
    }
  }

  lemma RowFitsIf(t: int, w: int, len: int)
    requires 0 <= t && t + 4 * w <= len
    ensures RowFits(t, w, len)
  {
  }

  // ----- what the boxes mean

  /** The public header's box: radius pixels around the centre, cut off at the image border. */
  ghost predicate Around(i: int, j: int, x: int, y: int, w: int, h: int, r: int) {
    0 <= i < w && 0 <= j < h && x - r <= i <= x + r && y - r <= j <= y + r
  }

  /** The box the code averages. */
  ghost predicate InBox(i: int, j: int, x: int, y: int, w: int, h: int, r: int) {
    Left(x, r) < i <= Right(x, r, w) && Top(y, r) < j <= Bottom(y, r, h)
  }

  /** The code averages the promised box exactly where the box does not touch column 0 or
      row 0; elsewhere that column or row is left out. */
  lemma BoxIsCentred(x: int, y: int, w: int, h: int, r: int)
    requires 0 < r <= h && 2 * r + 2 <= w && 0 <= x < w && 0 <= y < h
    ensures (forall i, j :: InBox(i, j, x, y, w, h, r) <==> Around(i, j, x, y, w, h, r)) <==> r < x && r < y
    ensures forall i, j :: InBox(i, j, x, y, w, h, r) ==> Around(i, j, x, y, w, h, r)
  {
    if x <= r {
      assert Around(0, y, x, y, w, h, r) && !InBox(0, y, x, y, w, h, r);
    } else if y <= r {
      assert Around(x, 0, x, y, w, h, r) && !InBox(x, 0, x, y, w, h, r);
    }
  }

  lemma OnePixel(m: seq<byte>, v: View, x: int, y: int)
    ensures BoxSum(m, v, x, x + 1, y, y + 1) == Pix(m, v, x, y)
  {
    assert RowSum(m, v, x, x + 1, y) == RowSum(m, v, x, x, y) + Pix(m, v, x, y);
    assert BoxSum(m, v, x, x + 1, y, y) == 0;
  }

  lemma FourPixels(m: seq<byte>, v: View, x: int, y: int)
    ensures BoxSum(m, v, x, x + 2, y, y + 2)
      == Pix(m, v, x, y) + Pix(m, v, x + 1, y) + Pix(m, v, x, y + 1) + Pix(m, v, x + 1, y + 1)
  {
    BoxSplitX(m, v, x, x + 1, x + 2, y, y + 2);
    BoxSplitY(m, v, x, x + 1, y, y + 1, y + 2);
    BoxSplitY(m, v, x + 1, x + 2, y, y + 1, y + 2);
    OnePixel(m, v, x, y);
    OnePixel(m, v, x, y + 1);
    OnePixel(m, v, x + 1, y);
    OnePixel(m, v, x + 1, y + 1);
  }

  lemma CornerPixels(m: seq<byte>)
    requires |m| == 32 && m[0] == 90 && forall k | 0 < k < 32 :: m[k] == 0
    ensures var v := Channel(0, 16, 0);
      Pix(m, v, 0, 0) == 90 && Pix(m, v, 1, 0) == 0 && Pix(m, v, 0, 1) == 0 && Pix(m, v, 1, 1) == 0
  {
  }

  lemma BlackBox(m: seq<byte>, off: int, stride: int, w: int, h: int, r: int, x: int, y: int, ch: int)
    requires 0 < BoxArea(x, y, w, h, r)
    requires BoxSum(m, Channel(off, stride, ch), Left(x, r) + 1, Right(x, r, w) + 1, Top(y, r) + 1, Bottom(y, r, h) + 1)
      == 0
    ensures BlurByte(m, off, stride, w, h, r, x, y, ch) == 0
  {
    hide BoxSum, BoxArea, Left, Right, Top, Bottom, Channel, Float32.Quotient;
    assert Wrap32(0) == 0;
    Float32.QuotientBetween(0, BoxArea(x, y, w, h, r), 0, 0);
  }

  lemma CornerBox()
    ensures Left(0, 1) == 0 && Right(0, 1, 4) == 1 && Top(0, 1) == 0 && Bottom(0, 1, 2) == 1
    ensures BoxArea(0, 0, 4, 2, 1) == 1
  {
  }

  /** The smallest image that shows it: one bright pixel in the corner of a 4 x 2 image, blurred
      with radius 1.  The corner's promised box has mean 90 / 4; the code averages one black pixel. */
  lemma CornerLeftOut(m: seq<byte>)
    requires |m| == 32 && m[0] == 90 && forall k | 0 < k < 32 :: m[k] == 0
    ensures BoxArea(0, 0, 4, 2, 1) == 1 && BlurByte(m, 0, 16, 4, 2, 1, 0, 0, 0) == 0
    ensures BoxSum(m, Channel(0, 16, 0), 0, 2, 0, 2) / 4 == 22
  {
    hide *;
    CornerPixels(m);
    OnePixel(m, Channel(0, 16, 0), 1, 1);
    FourPixels(m, Channel(0, 16, 0), 0, 0);
    CornerBox();
    BlackBox(m, 0, 16, 4, 2, 1, 0, 0, 0);
  }

  /** Table entries stay in 32 bits for every image of at most 8421504 pixels. */
  lemma TableFitsInt32(m: seq<byte>, v: View, x: int, y: int, w: int, h: int)
    requires 0 <= x <= w && 0 <= y <= h && w * h <= 8421504
    ensures 0 <= Prefix(m, v, x, y) <= 255 * (w * h) < TWO31
    ensures Wrap32(Prefix(m, v, x, y)) == Prefix(m, v, x, y)
  {
    BoxSumBounds(m, v, 0, x, 0, y);
    MulMonotone(x, w, y);
    MulMonotone(y, h, w);
  }

  lemma {:induction false} RowSumBetween(m: seq<byte>, v: View, x0: int, x1: int, y: int, lo: int, hi: int)
    requires x0 <= x1 && forall x | x0 <= x < x1 :: lo <= Pix(m, v, x, y) <= hi
    ensures lo * (x1 - x0) <= RowSum(m, v, x0, x1, y) <= hi * (x1 - x0)
    decreases x1 - x0
  {
    if x0 < x1 {
      RowSumBetween(m, v, x0, x1 - 1, y, lo, hi);
      assert lo * (x1 - x0) == lo * (x1 - 1 - x0) + lo && hi * (x1 - x0) == hi * (x1 - 1 - x0) + hi;
    }
  }

  lemma {:induction false} BoxSumBetween(m: seq<byte>, v: View, x0: int, x1: int, y0: int, y1: int, lo: int, hi: int)
    requires x0 <= x1 && y0 <= y1 && forall x, y | x0 <= x < x1 && y0 <= y < y1 :: lo <= Pix(m, v, x, y) <= hi
    ensures lo * ((y1 - y0) * (x1 - x0)) <= BoxSum(m, v, x0, x1, y0, y1) <= hi * ((y1 - y0) * (x1 - x0))
    decreases y1 - y0
  {
    if y0 < y1 {
      BoxSumBetween(m, v, x0, x1, y0, y1 - 1, lo, hi);
      RowSumBetween(m, v, x0, x1, y1 - 1, lo, hi);
      assert (y1 - y0) * (x1 - x0) == (y1 - 1 - y0) * (x1 - x0) + (x1 - x0);
      Distribute(lo, (y1 - 1 - y0) * (x1 - x0), x1 - x0);
      Distribute(hi, (y1 - 1 - y0) * (x1 - x0), x1 - x0);
    }
  }

  /** A four-channel image of w by h pixels, all bytes equal to v. */
  function Plain(w: nat, h: nat, v: byte): seq<byte> {
    seq(4 * (w * h), _ => v)
  }

  lemma PlainPixel(w: nat, h: nat, v: byte, i: int, j: int)
    requires 0 <= i < w && 0 <= j < h
    ensures Pix(Plain(w, h, v), Channel(0, 4 * w, 0), i, j) == v as int
  {
    FlatIndexInside(w, h, i, j);
    assert j * (4 * w) == 4 * (j * w);
  }

  lemma Swapped(a: int, b: int)
    ensures a * b == b * a
  {
  }

  lemma WhiteSum(w: nat, h: nat)
    ensures Prefix(Plain(w, h, 255), Channel(0, 4 * w, 0), w, h) == 255 * (w * h)
  {
    hide Pix, Plain, Channel, BoxSum;
    var m := Plain(w, h, 255);
    forall i, j | 0 <= i < w && 0 <= j < h ensures 255 <= Pix(m, Channel(0, 4 * w, 0), i, j) <= 255 {
      PlainPixel(w, h, 255, i, j);
    }
    Swapped(h, w);
    BoxSumBetween(m, Channel(0, 4 * w, 0), 0, w, 0, h, 255, 255);
  }

  /** 8421504 is the exact limit: the table of every image of w by h pixels stays in 32 bits if and
      only if there are no more pixels than that. */
  lemma TableLimit(w: nat, h: nat)
    ensures (forall m: seq<byte>, ch, x, y | |m| == 4 * (w * h) && 0 <= ch < 4 && 0 <= x <= w && 0 <= y <= h ::
               Wrap32(Prefix(m, Channel(0, 4 * w, ch), x, y)) == Prefix(m, Channel(0, 4 * w, ch), x, y))
       <==> w * h <= 8421504
  {
    if w * h <= 8421504 {
      forall m: seq<byte>, ch, x, y | |m| == 4 * (w * h) && 0 <= ch < 4 && 0 <= x <= w && 0 <= y <= h
        ensures Wrap32(Prefix(m, Channel(0, 4 * w, ch), x, y)) == Prefix(m, Channel(0, 4 * w, ch), x, y)
      {
        TableFitsInt32(m, Channel(0, 4 * w, ch), x, y, w, h);
      }
    } else {
      WhiteSum(w, h);
      WrapInside(255 * (w * h));
    }
  }

  lemma Distribute(a: int, b: int, c: int)
    ensures a * (b + c) == a * b + a * c
  {
  }

  lemma {:induction false} RowSumAbove(m: seq<byte>, v: View, x0: int, x1: int, y: int, lo: int, i: int)
    requires x0 <= i < x1 && lo < Pix(m, v, i, y) && forall x | x0 <= x < x1 :: lo <= Pix(m, v, x, y)
    ensures lo * (x1 - x0) < RowSum(m, v, x0, x1, y)
    decreases x1 - x0
  {
    Distribute(lo, x1 - 1 - x0, 1);
    if i == x1 - 1 {
      RowSumBetween(m, v, x0, x1 - 1, y, lo, 255);
    } else {
      RowSumAbove(m, v, x0, x1 - 1, y, lo, i);
    }
  }

  /** One brighter pixel makes the sum larger. */
  lemma {:induction false} BoxSumAbove(m: seq<byte>, v: View, x0: int, x1: int, y0: int, y1: int, lo: int, i: int,
                                       j: int)
    requires x0 <= i < x1 && y0 <= j < y1 && lo < Pix(m, v, i, j)
    requires forall x, y | x0 <= x < x1 && y0 <= y < y1 :: lo <= Pix(m, v, x, y)
    ensures lo * ((y1 - y0) * (x1 - x0)) < BoxSum(m, v, x0, x1, y0, y1)
    decreases y1 - y0
  {
    Distribute(x1 - x0, y1 - 1 - y0, 1);
    Distribute(lo, (y1 - 1 - y0) * (x1 - x0), x1 - x0);
    if j == y1 - 1 {
      RowSumAbove(m, v, x0, x1, y1 - 1, lo, i);
      BoxSumBetween(m, v, x0, x1, y0, y1 - 1, lo, 255);
    } else {
      BoxSumAbove(m, v, x0, x1, y0, y1 - 1, lo, i, j);
      RowSumBetween(m, v, x0, x1, y1 - 1, lo, 255);
    }
  }

  /** Channel ch of the box of pixel (x, y) lies between lo and hi. */
  ghost predicate BoxBetween(m: seq<byte>, off: int, stride: int, w: int, h: int, r: int, x: int, y: int, ch: int,
                             lo: int, hi: int) {
    forall i, j | Left(x, r) + 1 <= i < Right(x, r, w) + 1 && Top(y, r) + 1 <= j < Bottom(y, r, h) + 1 ::
      lo <= Pix(m, Channel(off, stride, ch), i, j) <= hi
  }

  function SumOfBox(m: seq<byte>, off: int, stride: int, w: int, h: int, r: int, x: int, y: int, ch: int): int {
    BoxSum(m, Channel(off, stride, ch), Left(x, r) + 1, Right(x, r, w) + 1, Top(y, r) + 1, Bottom(y, r, h) + 1)
  }

  /** A box with a 32-bit sum: whatever the table wrapped to on the way, the byte is the
      single-precision mean. */
  lemma BlurIsQuotient(m: seq<byte>, off: int, stride: int, w: int, h: int, r: int, x: int, y: int, ch: int,
                       lo: int, hi: int)
    requires 0 < r <= h && 2 <= h && 2 * r + 2 <= w && 0 <= x < w && 0 <= y < h && 0 <= lo && hi <= 255
    requires 0 < BoxArea(x, y, w, h, r) && 255 * BoxArea(x, y, w, h, r) < TWO31
    requires BoxBetween(m, off, stride, w, h, r, x, y, ch, lo, hi)
    ensures var sum, area := SumOfBox(m, off, stride, w, h, r, x, y, ch), BoxArea(x, y, w, h, r);
      && 0 <= sum && lo * area <= sum <= hi * area
      && BlurByte(m, off, stride, w, h, r, x, y, ch) as int == Float32.Quotient(sum, area)
  {
    hide Pix, BoxSum, Average, Wrap32, Float32.Quotient;
    BoxNotEmpty(x, y, w, h, r);
    var v, area := Channel(off, stride, ch), BoxArea(x, y, w, h, r);
    var x0, x1, y0, y1 := Left(x, r) + 1, Right(x, r, w) + 1, Top(y, r) + 1, Bottom(y, r, h) + 1;
    assert area == (y1 - y0) * (x1 - x0);
    hide Left, Right, Top, Bottom, BoxArea, Channel;
    BoxSumBetween(m, v, x0, x1, y0, y1, lo, hi);
    BoxSumBounds(m, v, x0, x1, y0, y1);
    Swapped(x1 - x0, y1 - y0);
    AverageIs(BoxSum(m, v, x0, x1, y0, y1), area, lo, hi);
  }

  lemma AverageIs(sum: nat, area: nat, lo: int, hi: int)
    requires sum < TWO31 && 0 < area && 0 <= lo && hi <= 255 && lo * area <= sum <= hi * area
    ensures Average(Wrap32(sum), area) as int == Float32.Quotient(sum, area)
  {
    WrapExact(sum);
    hide Wrap32, Float32.Quotient;
    Float32.QuotientBetween(sum, area, lo, hi);
  }

  /** A box whose sum is that of its darkest value is flat. */
  lemma FlatBox(m: seq<byte>, off: int, stride: int, w: int, h: int, r: int, x: int, y: int, ch: int, lo: int, hi: int)
    requires BoxBetween(m, off, stride, w, h, r, x, y, ch, lo, hi)
    requires SumOfBox(m, off, stride, w, h, r, x, y, ch) == lo * BoxArea(x, y, w, h, r)
    ensures BoxBetween(m, off, stride, w, h, r, x, y, ch, lo, lo)
  {
    var v := Channel(off, stride, ch);
    var x0, x1, y0, y1 := Left(x, r) + 1, Right(x, r, w) + 1, Top(y, r) + 1, Bottom(y, r, h) + 1;
    hide Left, Right, Top, Bottom, BoxSum, Pix, Channel;
    forall i, j | x0 <= i < x1 && y0 <= j < y1
      ensures lo <= Pix(m, v, i, j) <= lo
    {
      if lo < Pix(m, v, i, j) {
        BoxSumAbove(m, v, x0, x1, y0, y1, lo, i, j);
      }
    }
  }

  /** A blurred byte is never brighter than the brightest pixel of its box and at most one darker
      than the darkest, whatever the table wrapped to on the way, as long as the box itself has a
      32-bit sum.  In a box of at most 32896 pixels it is the truncated mean, or one less and then
      only if the area divides the sum; and it is darker than the darkest pixel only if the box is
      flat. */
  lemma BlurBetween(m: seq<byte>, off: int, stride: int, w: int, h: int, r: int, x: int, y: int, ch: int, lo: int,
                    hi: int)
    requires 0 < r <= h && 2 <= h && 2 * r + 2 <= w && 0 <= x < w && 0 <= y < h && 0 <= lo && hi <= 255
    requires 0 < BoxArea(x, y, w, h, r) && 255 * BoxArea(x, y, w, h, r) < TWO31
    requires BoxBetween(m, off, stride, w, h, r, x, y, ch, lo, hi)
    ensures lo - 1 <= BlurByte(m, off, stride, w, h, r, x, y, ch) as int <= hi
    ensures BoxArea(x, y, w, h, r) <= 32896 ==>
      var sum, area := SumOfBox(m, off, stride, w, h, r, x, y, ch), BoxArea(x, y, w, h, r);
      var b := BlurByte(m, off, stride, w, h, r, x, y, ch) as int;
      && (b == sum / area || (sum % area == 0 && b == sum / area - 1))
      && (b < lo ==> BoxBetween(m, off, stride, w, h, r, x, y, ch, lo, lo))
  {
    hide BoxBetween, SumOfBox, BlurByte, BoxArea, Float32.Quotient;
    BlurIsQuotient(m, off, stride, w, h, r, x, y, ch, lo, hi);
    var sum, area := SumOfBox(m, off, stride, w, h, r, x, y, ch), BoxArea(x, y, w, h, r);
    Float32.QuotientBetween(sum, area, lo, hi);
    if area <= 32896 {
      MulMonotone(hi, 255, area);
      Float32.QuotientNear(sum, area);
      if Float32.Quotient(sum, area) < lo {
        Float32.QuotientBelow(sum, area, lo);
        FlatBox(m, off, stride, w, h, r, x, y, ch, lo, hi);
      }
    }
  }

  /** A flat box of at most 32896 pixels stays as it is if the reciprocal of its area is good enough;
      Float32.FlatLost says that otherwise the value 1 does not. */
  lemma FlatStays(m: seq<byte>, off: int, stride: int, w: int, h: int, r: int, x: int, y: int, ch: int, v: byte)
    requires 0 < r <= h && 2 <= h && 2 * r + 2 <= w && 0 <= x < w && 0 <= y < h
    requires 0 < BoxArea(x, y, w, h, r) <= 32896 && BoxBetween(m, off, stride, w, h, r, x, y, ch, v as int, v as int)
    ensures BlurByte(m, off, stride, w, h, r, x, y, ch) as int == Float32.FlatMean(v as nat, BoxArea(x, y, w, h, r))
    ensures Float32.KeepsFlat(BoxArea(x, y, w, h, r)) ==> BlurByte(m, off, stride, w, h, r, x, y, ch) == v
  {
    BlurIsQuotient(m, off, stride, w, h, r, x, y, ch, v as int, v as int);
    hide SumOfBox, BoxBetween, BlurByte, BoxArea, Float32.Quotient, Float32.KeepsFlat;
    if Float32.KeepsFlat(BoxArea(x, y, w, h, r)) {
      Float32.FlatStays(v as nat, BoxArea(x, y, w, h, r));
    }
  }

  lemma WideBox()
    ensures Left(6, 5) == 0 && Right(6, 5, 12) == 11 && Top(0, 5) == 0 && Bottom(0, 5, 6) == 5
    ensures BoxArea(6, 0, 12, 6, 5) == 55
  {
  }

  /** A flat image that does not stay as it is: 12 x 6 pixels of value 1, blurred with radius 5.  The
      box of pixel (6, 0) has 55 pixels, and 55 * (1 / 55) is less than 1 in single precision. */
  lemma FlatDarkened()
    ensures BoxArea(6, 0, 12, 6, 5) == 55 && BlurByte(Plain(12, 6, 1), 0, 48, 12, 6, 5, 6, 0, 0) == 0
  {
    hide Plain, Pix, Channel, Left, Right, Top, Bottom, BoxArea, BlurByte, Float32.FlatMean, Float32.KeepsFlat;
    WideBox();
    forall i, j | Left(6, 5) + 1 <= i < Right(6, 5, 12) + 1 && Top(0, 5) + 1 <= j < Bottom(0, 5, 6) + 1
      ensures 1 <= Pix(Plain(12, 6, 1), Channel(0, 48, 0), i, j) <= 1
    {
      PlainPixel(12, 6, 1, i, j);
    }
    FlatStays(Plain(12, 6, 1), 0, 48, 12, 6, 5, 6, 0, 0, 1);
    Float32.FiftyFive();
  }
}
