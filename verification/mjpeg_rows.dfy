/** mjpeg_decoder.cc: which rows of a frame a cropped decode delivers, and DecodeToBuffers. */
module MjpegRows {

  const DCTSIZE: int := 8

  function DivideAndRoundUp(numerator: int, denominator: int): int
    requires 0 < denominator
  {
    (numerator + denominator - 1) / denominator
  }

  // ----- the arithmetic of a vertical crop

  /** Rows dropped above the crop. */
  function Skip(height: int, dstHeight: int): int {
    (height - dstHeight) / 2
  }

  /** Rows of the first wanted iMCU row that lie above the crop. */
  function PartialSkip(height: int, dstHeight: int, imcu: int): int
    requires 0 < imcu
  {
    Skip(height, dstHeight) % imcu
  }

  /** Rows still wanted once the partly skipped iMCU row is used up. */
  function Rest(height: int, dstHeight: int, imcu: int): int
    requires 0 < imcu
  {
    var s := PartialSkip(height, dstHeight, imcu);
    if s > 0 then dstHeight - (imcu - s) else dstHeight
  }

  /** The rows a decode that runs to its end hands over: the whole remainder of a partly skipped
      iMCU row, even where the crop wanted less. */
  function Delivered(height: int, dstHeight: int, imcu: int): int
    requires 0 < imcu
  {
    var s, rest := PartialSkip(height, dstHeight, imcu), Rest(height, dstHeight, imcu);
    (if s > 0 then imcu - s else 0) + (if rest > 0 then rest else 0)
  }

  /** The rows it hands over of a component with one row in vs lines: the part of the skipped iMCU row and
      the lines after it are rounded up apart. */
  function ComponentDelivered(height: int, dstHeight: int, imcu: int, vs: int): int
    requires 0 < imcu && 0 < vs
  {
    var s, rest := PartialSkip(height, dstHeight, imcu), Rest(height, dstHeight, imcu);
    (if s > 0 then DivideAndRoundUp(imcu - s, vs) else 0) + (if rest > 0 then DivideAndRoundUp(rest, vs) else 0)
  }

  /** The iMCU rows such a decode reads. */
  function Needed(height: int, dstHeight: int, imcu: int): int
    requires 0 < imcu
  {
    var s, rest := PartialSkip(height, dstHeight, imcu), Rest(height, dstHeight, imcu);
    Skip(height, dstHeight) / imcu + (if s > 0 then 1 else 0) + (if rest > 0 then DivideAndRoundUp(rest, imcu) else 0)
  }

  lemma DivideUp(n: int, k: int)
    requires 0 < k
    ensures k * DivideAndRoundUp(n, k) - k < n <= k * DivideAndRoundUp(n, k)
  {
  }

  lemma DivideUpIs(n: int, k: int, q: int)
    requires 0 < k && k * q - k < n <= k * q
    ensures DivideAndRoundUp(n, k) == q
  {
    var p := DivideAndRoundUp(n, k);
    DivideUp(n, k);
    if p < q {
      assert k * (q - 1) == k * q - k;
      Multiples(k, p, q - 1);
    } else if q < p {
      assert k * (p - 1) == k * p - k;
      Multiples(k, q, p - 1);
    }
  }

  /** A crop is taken from the middle of the frame: below it there are as many rows as above, or one more. */
  lemma CropCentred(height: int, dstHeight: int)
    requires dstHeight <= height
    ensures var above := Skip(height, dstHeight);
      var below := height - dstHeight - above;
      0 <= above && (below == above || below == above + 1)
  {
  }

  /** The crop is delivered exactly, unless it ends inside the partly skipped iMCU row. */
  lemma DeliversCrop(height: int, dstHeight: int, imcu: int)
    requires 0 < imcu && dstHeight <= height
    ensures var s := PartialSkip(height, dstHeight, imcu);
      Delivered(height, dstHeight, imcu) == dstHeight <==> (if s > 0 then imcu - s else 0) <= dstHeight
    ensures 0 <= dstHeight ==> dstHeight <= Delivered(height, dstHeight, imcu)
    ensures 0 <= dstHeight < Delivered(height, dstHeight, imcu) ==>
      var n := Delivered(height, dstHeight, imcu);
      n < imcu && (Skip(height, dstHeight) + n) % imcu == 0
  {
    var top, s := Skip(height, dstHeight), PartialSkip(height, dstHeight, imcu);
    assert top == imcu * (top / imcu) + s;
    if 0 <= dstHeight < Delivered(height, dstHeight, imcu) {
      assert top + (imcu - s) == imcu * (top / imcu + 1);
      MultipleOf(imcu, top / imcu + 1);
    }
  }

  /** The iMCU rows needed are those that reach from the top of the frame to the last row delivered. */
  lemma NeededReaches(height: int, dstHeight: int, imcu: int, available: int)
    requires 0 < imcu
    ensures Needed(height, dstHeight, imcu) <= available <==>
      Skip(height, dstHeight) + Delivered(height, dstHeight, imcu) <= imcu * available
  {
    var top, s, rest := Skip(height, dstHeight), PartialSkip(height, dstHeight, imcu), Rest(height, dstHeight, imcu);
    var tail, needed := if rest > 0 then rest else 0, Needed(height, dstHeight, imcu);
    var k := top / imcu + if s > 0 then 1 else 0;
    assert top == imcu * (top / imcu) + s;
    assert imcu * (top / imcu + 1) == imcu * (top / imcu) + imcu;
    DivideUpIs(0, imcu, 0);
    UpAfterWhole(imcu, k, tail);
    DivideUp(imcu * k + tail, imcu);
    hide DivideAndRoundUp;
    if needed <= available {
      Multiples(imcu, needed, available);
    } else {
      MultiplesUp(imcu, available, needed);
    }
  }

  /** Two parts rounded up apart make one row more than together exactly if neither is a whole number of
      rows and what they have over fits one row. */
  predicate RoundedApart(a: int, b: int, vs: int)
    requires 0 < vs
  {
    0 < a % vs && 0 < b % vs && a % vs + b % vs <= vs
  }

  lemma TwoRoundings(a: int, b: int, vs: int)
    requires 0 < vs
    ensures DivideAndRoundUp(a, vs) + DivideAndRoundUp(b, vs)
      == DivideAndRoundUp(a + b, vs) + (if RoundedApart(a, b, vs) then 1 else 0)
  {
    hide DivideAndRoundUp;
    WholeAndOver(a, vs);
    WholeAndOver(b, vs);
    assert vs * (a / vs + b / vs) == vs * (a / vs) + vs * (b / vs);
    UpAfterWhole(vs, a / vs, a % vs);
    UpAfterWhole(vs, b / vs, b % vs);
    UpAfterWhole(vs, a / vs + b / vs, a % vs + b % vs);
    Overs(a % vs, b % vs, vs);
  }

  lemma WholeAndOver(a: int, vs: int)
    requires 0 < vs
    ensures a == vs * (a / vs) + a % vs
  {
  }

  lemma Overs(r: int, t: int, vs: int)
    requires 0 <= r < vs && 0 <= t < vs
    ensures DivideAndRoundUp(r, vs) + DivideAndRoundUp(t, vs)
         == DivideAndRoundUp(r + t, vs) + (if 0 < r && 0 < t && r + t <= vs then 1 else 0)
  {
    hide DivideAndRoundUp;
    DivideUpIs(r, vs, if r > 0 then 1 else 0);
    DivideUpIs(t, vs, if t > 0 then 1 else 0);
    DivideUpIs(r + t, vs, if r + t == 0 then 0 else if r + t <= vs then 1 else 2);
  }

  /** A component gets the rows of the lines delivered, or one row too many, exactly if the skipped iMCU
      row and the lines after it are rounded up apart. */
  lemma RowTooMany(height: int, dstHeight: int, imcu: int, vs: int)
    requires 0 < imcu && 0 < vs
    ensures var s, rest := PartialSkip(height, dstHeight, imcu), Rest(height, dstHeight, imcu);
      ComponentDelivered(height, dstHeight, imcu, vs) == DivideAndRoundUp(Delivered(height, dstHeight, imcu), vs)
        + (if 0 < s && 0 < rest && RoundedApart(imcu - s, rest, vs) then 1 else 0)
  {
    WholeRows(vs, 0);
    hide DivideAndRoundUp, RoundedApart;
    TwoRoundings(imcu - PartialSkip(height, dstHeight, imcu), Rest(height, dstHeight, imcu), vs);
  }

  /** No decode of a crop reads past the last iMCU row of the frame. */
  lemma NeverPastFrame(height: int, dstHeight: int, imcu: int)
    requires 0 < imcu && 0 < dstHeight <= height
    ensures Needed(height, dstHeight, imcu) <= DivideAndRoundUp(height, imcu)
  {
    var skip, s, rest := Skip(height, dstHeight), PartialSkip(height, dstHeight, imcu), Rest(height, dstHeight, imcu);
    var q, all, tail :=
      skip / imcu, DivideAndRoundUp(height, imcu), if rest > 0 then DivideAndRoundUp(rest, imcu) else 0;
    DivideUp(height, imcu);
    if rest > 0 {
      DivideUp(rest, imcu);
    }
    assert skip == imcu * q + s;
    LastRowRead(imcu, q, s, tail, rest, height);
    hide DivideAndRoundUp;
    if Needed(height, dstHeight, imcu) > all {
      MultiplesUp(imcu, all, Needed(height, dstHeight, imcu));
    }
  }

  /** The last iMCU row read starts above the bottom of the frame. */
  lemma LastRowRead(imcu: int, q: int, s: int, tail: int, rest: int, height: int)
    requires 0 < imcu && 0 <= s && imcu * q + s < height
    requires if rest > 0 then imcu * tail - imcu < rest else tail == 0 && s > 0
    requires imcu * q + s + (if s > 0 then imcu - s else 0) + rest <= height
    ensures imcu * (q + (if s > 0 then 1 else 0) + tail) - imcu < height
  {
    var head := q + (if s > 0 then 1 else 0);
    assert imcu * head == imcu * q + (if s > 0 then imcu else 0);
    assert imcu * (head + tail) == imcu * head + imcu * tail;
  }

  lemma MultiplesUp(k: int, a: int, b: int)
    requires 0 < k && a < b
    ensures k * a <= k * b - k
  {
    assert k * (b - 1) == k * b - k;
    Multiples(k, a, b - 1);
  }

  lemma Multiples(k: int, a: int, b: int)
    requires 0 < k && a <= b
    ensures k * a <= k * b
  {
  }

  // ----- DecodeToBuffers

  /** How a decode call ends.  Aborted is the failed assertion on a crop that is not aligned to
      a component's vertical subsampling, in builds that keep assertions. */
  datatype Outcome = Success | Failure | Aborted

  /** A loaded frame.  Each component's decoded rows are given, padded to whole iMCU rows; the
      data yields `available` iMCU rows before libjpeg reports an error. */
  class MJpegDecoder<Row> {
    const width: int
    const height: int
    const maxVSampFactor: int
    const vSampFactor: seq<int>
    const image: seq<seq<Row>>
    const starts: bool
    const available: int
    const asserts: bool
    var next: int
    var databuf: seq<seq<Row>>

    function GetVertSubSampFactor(i: int): int
      requires 0 <= i < |vSampFactor| && vSampFactor[i] != 0
    {
      maxVSampFactor / vSampFactor[i]
    }

    function GetImageScanlinesPerImcuRow(): int {
      maxVSampFactor * DCTSIZE
    }

    /** Every sampling factor divides the largest one, and every component has all its rows. */
    ghost predicate Shape() {
      && 0 < maxVSampFactor && |image| == |vSampFactor| && 0 <= available
      && forall i | 0 <= i < |vSampFactor| ::
        && 0 < vSampFactor[i] <= maxVSampFactor && maxVSampFactor % vSampFactor[i] == 0
        && |image[i]| == available * ComponentRows(i)
    }

    ghost predicate Valid()
      reads this
    {
      Shape() && 0 <= next
    }

    /** GetComponentScanlinesPerImcuRow. */
    function ComponentRows(i: int): int
      requires 0 <= i < |vSampFactor| && 0 < vSampFactor[i] <= maxVSampFactor
    {
      assert 0 < GetVertSubSampFactor(i);
      DivideAndRoundUp(GetImageScanlinesPerImcuRow(), GetVertSubSampFactor(i))
    }

    lemma RowsPerImcu(i: int)
      requires Shape() && 0 <= i < |vSampFactor|
      ensures 0 < GetVertSubSampFactor(i) && 0 < ComponentRows(i)
      ensures GetVertSubSampFactor(i) * ComponentRows(i) == GetImageScanlinesPerImcuRow()
    {
      var vs, v := GetVertSubSampFactor(i), vSampFactor[i];
      assert maxVSampFactor == v * vs;
      assert GetImageScanlinesPerImcuRow() == vs * (8 * v);
      DivideUpIs(GetImageScanlinesPerImcuRow(), vs, 8 * v);
    }

    constructor (width: int, height: int, maxV: int, vSamp: seq<int>, image: seq<seq<Row>>, starts: bool,
                 available: int,
                 asserts: bool)
      requires 0 < maxV && |image| == |vSamp| && 0 <= available
      requires forall i | 0 <= i < |vSamp| :: 0 < vSamp[i] <= maxV && maxV % vSamp[i] == 0
      requires forall i | 0 <= i < |vSamp| ::
        |image[i]| == available * DivideAndRoundUp(maxV * DCTSIZE, maxV / vSamp[i])
      ensures Valid()
      ensures this.width == width && this.height == height && maxVSampFactor == maxV && vSampFactor == vSamp
      ensures this.image == image && this.starts == starts && this.available == available && this.asserts == asserts
    {
      this.width, this.height, this.maxVSampFactor, this.vSampFactor := width, height, maxV, vSamp;
      this.image, this.starts, this.available, this.asserts := image, starts, available, asserts;
      next, databuf := 0, [];
    }

    method StartDecode() returns (ok: bool)
      requires Valid()
      modifies this`next
      ensures Valid() && ok == starts && next == 0
    {
      next := 0;
      ok := starts;
    }

    /** jpeg_read_raw_data: the next iMCU row of every component, or an error. */
    method DecodeImcuRow() returns (ok: bool)
      requires Valid()
      modifies this
      ensures Valid() && ok == (old(next) < available)
      ensures next == (if ok then old(next) + 1 else old(next))
      ensures ok ==> |databuf| == |image|
      ensures ok ==> forall i | 0 <= i < |image| :: Chunk(i, old(next), databuf[i])
    {
      ok := next < available;
      if ok {
        forall i | 0 <= i < |image|
          ensures 0 <= next * ComponentRows(i) && (next + 1) * ComponentRows(i) <= |image[i]|
        {
          RowsPerImcu(i);
          Multiples(ComponentRows(i), next + 1, available);
        }
        databuf :=
          seq(|image|, i requires 0 <= i < |image| && Valid() && 0 <= next * ComponentRows(i)
              && (next + 1) * ComponentRows(i) <= |image[i]|
                       reads this => image[i][next * ComponentRows(i)..(next + 1) * ComponentRows(i)]);
        next := next + 1;
      }
    }

    ghost predicate Chunk(i: int, k: int, rows: seq<Row>)
      requires 0 <= i < |vSampFactor| && i < |image| && 0 < vSampFactor[i] <= maxVSampFactor
    {
      && 0 <= k * ComponentRows(i) && (k + 1) * ComponentRows(i) <= |image[i]|
      && rows == image[i][k * ComponentRows(i)..(k + 1) * ComponentRows(i)]
    }

    // ----- where the rows of a component come from

    /** A line count that is a whole number of rows in every component. */
    ghost predicate Aligned(lines: int)
      requires forall i | 0 <= i < |vSampFactor| :: 0 < vSampFactor[i]
    {
      forall i | 0 <= i < |vSampFactor| && GetVertSubSampFactor(i) != 0 :: lines % GetVertSubSampFactor(i) == 0
    }

    /** Component i has been handed c rows, the first of them that of image line `skip`. */
    ghost predicate Written(i: int, before: seq<Row>, after: seq<Row>, skip: int, c: int)
      requires 0 <= i < |vSampFactor| && i < |image| && 0 < vSampFactor[i] <= maxVSampFactor
      requires 0 < GetVertSubSampFactor(i)
    {
      var first := skip / GetVertSubSampFactor(i);
      && 0 <= first && 0 <= c && first + c <= |image[i]|
      && after == before + image[i][first..first + c]
    }

    /** The part of iMCU row k from line `from` on continues what was written up to there. */
    lemma ChunkContinues(i: int, before: seq<Row>, plane: seq<Row>, rows: seq<Row>, k: int, skip: int, n: int,
                         from: int, add: int)
      requires Shape() && 0 <= i < |vSampFactor| && 0 < GetVertSubSampFactor(i)
      requires 0 <= k && Chunk(i, k, rows)
      requires Written(i, before, plane, skip, DivideAndRoundUp(n, GetVertSubSampFactor(i)))
      requires 0 <= from && 0 <= add && from + add <= GetImageScanlinesPerImcuRow()
      requires k * GetImageScanlinesPerImcuRow() + from == skip + n && (n == 0 || from == 0)
      ensures var vs := GetVertSubSampFactor(i);
        && 0 <= from / vs && from / vs + DivideAndRoundUp(add, vs) <= |rows| == ComponentRows(i)
        && ComponentRows(i) - from / vs == DivideAndRoundUp(GetImageScanlinesPerImcuRow() - from, vs)
        && Written(i, before, plane + rows[from / vs..from / vs + DivideAndRoundUp(add, vs)], skip,
                   DivideAndRoundUp(n, vs) + DivideAndRoundUp(add, vs))
    {
      var vs, m, lines := GetVertSubSampFactor(i), ComponentRows(i), GetImageScanlinesPerImcuRow();
      RowsPerImcu(i);
      hide *;
      Indices(vs, m, k, skip, n, from, add);
      ChunkJoins(i, before, plane, rows, k, skip, n, from, add);
    }

    lemma ChunkJoins(i: int, before: seq<Row>, plane: seq<Row>, rows: seq<Row>, k: int, skip: int, n: int, from: int,
                     add: int)
      requires Shape() && 0 <= i < |vSampFactor| && 0 < GetVertSubSampFactor(i)
      requires Chunk(i, k, rows) && Written(i, before, plane, skip, DivideAndRoundUp(n, GetVertSubSampFactor(i)))
      requires var vs, m, c :=
        GetVertSubSampFactor(i), ComponentRows(i), DivideAndRoundUp(add, GetVertSubSampFactor(i));
        && 0 <= from / vs && 0 <= c && from / vs + c <= m
        && k * m + from / vs == skip / vs + DivideAndRoundUp(n, vs)
      ensures |rows| == ComponentRows(i)
      ensures var vs := GetVertSubSampFactor(i);
        Written(i, before, plane + rows[from / vs..from / vs + DivideAndRoundUp(add, vs)], skip,
                DivideAndRoundUp(n, vs) + DivideAndRoundUp(add, vs))
    {
      var vs, m, all := GetVertSubSampFactor(i), ComponentRows(i), image[i];
      var a, b, f, c := skip / vs, DivideAndRoundUp(n, vs), from / vs, DivideAndRoundUp(add, vs);
      NextIndex(k, m);
      hide DivideAndRoundUp, GetVertSubSampFactor, ComponentRows, GetImageScanlinesPerImcuRow;
      SliceJoins(all, k * m, m, a, b, f, c);
      assert before + all[a..a + b] + rows[f..f + c] == before + (all[a..a + b] + rows[f..f + c]);
    }

    // ----- the three copies of DecodeToBuffers

    /** Every component has been handed the rows of n lines and then those of l more, each rounded up. */
    ghost predicate AllWritten(before: seq<seq<Row>>, after: seq<seq<Row>>, skip: int, n: int, l: int)
      requires Shape()
    {
      && |before| == |after| == |image|
      && forall i | 0 <= i < |image| && 0 < GetVertSubSampFactor(i) :: Handed(i, before[i], after[i], skip, n, l)
    }

    ghost predicate Handed(i: int, before: seq<Row>, after: seq<Row>, skip: int, n: int, l: int)
      requires 0 <= i < |vSampFactor| && i < |image| && 0 < vSampFactor[i] <= maxVSampFactor
      requires 0 < GetVertSubSampFactor(i)
    {
      var vs := GetVertSubSampFactor(i);
      Written(i, before, after, skip, DivideAndRoundUp(n, vs) + DivideAndRoundUp(l, vs))
    }

    /** databuf holds iMCU row k, and line `from` of it is the next line wanted. */
    ghost predicate Ready(k: int, skip: int, n: int, from: int)
      requires Shape()
      reads this
    {
      && 0 <= k && |databuf| == |image| && k * GetImageScanlinesPerImcuRow() + from == skip + n && (n == 0 || from == 0)
      && (forall i | 0 <= i < |image| :: Chunk(i, k, databuf[i]))
    }

    lemma Continues(i: int, before: seq<Row>, plane: seq<Row>, k: int, skip: int, n: int, from: int, add: int)
      requires Valid() && 0 <= i < |image| && Ready(k, skip, n, from)
      requires 0 < GetVertSubSampFactor(i) && Handed(i, before, plane, skip, n, 0)
      requires 0 <= from && 0 <= add && from + add <= GetImageScanlinesPerImcuRow()
      ensures var vs := GetVertSubSampFactor(i);
        && 0 <= from / vs && 0 <= DivideAndRoundUp(add, vs)
        && from / vs + DivideAndRoundUp(add, vs) <= |databuf[i]| == ComponentRows(i)
        && ComponentRows(i) - from / vs == DivideAndRoundUp(GetImageScanlinesPerImcuRow() - from, vs)
        && Handed(i, before, plane + databuf[i][from / vs..from / vs + DivideAndRoundUp(add, vs)], skip, n, add)
    {
      RowsPerImcu(i);
      var vs, m := GetVertSubSampFactor(i), ComponentRows(i);
      WholeRows(vs, 0);
      Indices(vs, m, k, skip, n, from, add);
      ChunkContinues(i, before, plane, databuf[i], k, skip, n, from, add);
    }

    /** With nothing before them, or a whole iMCU row of them, the new lines can be counted with the old. */
    lemma CountedTogether(i: int, before: seq<Row>, after: seq<Row>, skip: int, n: int, add: int)
      requires Shape() && 0 <= i < |image| && 0 < GetVertSubSampFactor(i) && Handed(i, before, after, skip, n, add)
      requires n == 0 || add == GetImageScanlinesPerImcuRow()
      ensures Handed(i, before, after, skip, n + add, 0)
    {
      RowsPerImcu(i);
      var vs, m := GetVertSubSampFactor(i), ComponentRows(i);
      WholeRows(vs, 0);
      WholeRows(vs, m);
      UpAfterWhole(vs, m, n);
    }

    /** The rest of a partly skipped iMCU row; with assertions, it fails where a component cannot skip
        that many lines. */
    method CopyAfterSkip(ghost before: seq<seq<Row>>, planes: seq<seq<Row>>, skip: int, ghost k: int, ghost top: int)
      returns (aligned: bool, out: seq<seq<Row>>)
      requires Valid() && 0 < skip < GetImageScanlinesPerImcuRow()
      requires Ready(k, top, 0, skip) && AllWritten(before, planes, top, 0, 0)
      ensures aligned <==> asserts ==> Aligned(skip)
      ensures aligned ==> AllWritten(before, out, top, GetImageScanlinesPerImcuRow() - skip, 0)
    {
      hide Handed;
      out := planes;
      var i := 0;
      while i < |image|
        invariant 0 <= i <= |image| && |out| == |image|
        invariant asserts ==>
          forall j | 0 <= j < i && 0 < GetVertSubSampFactor(j) :: skip % GetVertSubSampFactor(j) == 0
        invariant forall j | 0 <= j < i && 0 < GetVertSubSampFactor(j) ::
          Handed(j, before[j], out[j], top, GetImageScanlinesPerImcuRow() - skip, 0)
        invariant forall j | i <= j < |image| :: out[j] == planes[j]
      {
        RowsPerImcu(i);
        if asserts && skip % GetVertSubSampFactor(i) != 0 {
          return false, out;
        }
        var rowsToSkip := skip / GetVertSubSampFactor(i);
        SkippedRows(i, skip, k, databuf[i]);
        var scanlinesToCopy := ComponentRows(i) - rowsToSkip;
        Continues(i, before[i], planes[i], k, top, 0, skip, GetImageScanlinesPerImcuRow() - skip);
        out := out[i := out[i] + databuf[i][rowsToSkip..rowsToSkip + scanlinesToCopy]];
        CountedTogether(i, before[i], out[i], top, 0, GetImageScanlinesPerImcuRow() - skip);
        i := i + 1;
      }
      return true, out;
    }

    lemma SkippedRows(i: int, skip: int, k: int, rows: seq<Row>)
      requires Shape() && 0 <= i < |image| && 0 < GetVertSubSampFactor(i) && 0 <= skip < GetImageScanlinesPerImcuRow()
      requires Chunk(i, k, rows)
      ensures 0 <= skip / GetVertSubSampFactor(i) <= ComponentRows(i) == |rows|
    {
      RowsPerImcu(i);
      NextIndex(k, ComponentRows(i));
      var vs, m := GetVertSubSampFactor(i), ComponentRows(i);
      if skip / vs > m {
        Multiples(vs, m, skip / vs);
      }
    }

    /** A whole iMCU row. */
    method CopyWhole(ghost before: seq<seq<Row>>, planes: seq<seq<Row>>, ghost k: int, ghost top: int, ghost n: int)
      returns (out: seq<seq<Row>>)
      requires Valid() && Ready(k, top, n, 0) && AllWritten(before, planes, top, n, 0)
      ensures AllWritten(before, out, top, n + GetImageScanlinesPerImcuRow(), 0)
    {
      hide Handed;
      out := planes;
      var i := 0;
      while i < |image|
        invariant 0 <= i <= |image| && |out| == |image|
        invariant forall j | 0 <= j < i && 0 < GetVertSubSampFactor(j) ::
          Handed(j, before[j], out[j], top, n + GetImageScanlinesPerImcuRow(), 0)
        invariant forall j | i <= j < |image| :: out[j] == planes[j]
      {
        RowsPerImcu(i);
        Continues(i, before[i], planes[i], k, top, n, 0, GetImageScanlinesPerImcuRow());
        var scanlinesToCopy := ComponentRows(i);
        out := out[i := out[i] + databuf[i][..scanlinesToCopy]];
        CountedTogether(i, before[i], out[i], top, n, GetImageScanlinesPerImcuRow());
        i := i + 1;
      }
    }

    /** The first lines of the last iMCU row. */
    method CopyLast(ghost before: seq<seq<Row>>, planes: seq<seq<Row>>, linesLeft: int, ghost k: int, ghost top: int,
                    ghost n: int)
      returns (out: seq<seq<Row>>)
      requires Valid() && Ready(k, top, n, 0) && AllWritten(before, planes, top, n, 0)
      requires 0 < linesLeft <= GetImageScanlinesPerImcuRow()
      ensures AllWritten(before, out, top, n, linesLeft)
    {
      hide Handed;
      out := planes;
      var i := 0;
      while i < |image|
        invariant 0 <= i <= |image| && |out| == |image|
        invariant forall j | 0 <= j < i && 0 < GetVertSubSampFactor(j) ::
          Handed(j, before[j], out[j], top, n, linesLeft)
        invariant forall j | i <= j < |image| :: out[j] == planes[j]
      {
        RowsPerImcu(i);
        Continues(i, before[i], planes[i], k, top, n, 0, linesLeft);
        var scanlinesToCopy := DivideAndRoundUp(linesLeft, GetVertSubSampFactor(i));
        out := out[i := out[i] + databuf[i][..scanlinesToCopy]];
        i := i + 1;
      }
    }

    // ----- DecodeToBuffers

    /** The decode runs to its end exactly when the crop fits the frame, is aligned to
        every component unless assertions are off, and libjpeg yields all the iMCU rows the crop needs. */
    ghost predicate CanDecode(dstWidth: int, dstHeight: int)
      requires Shape()
    {
      && dstWidth == width && dstHeight <= height && starts
      && (asserts ==> Aligned(PartialSkip(height, dstHeight, GetImageScanlinesPerImcuRow())))
      && Needed(height, dstHeight, GetImageScanlinesPerImcuRow()) <= available
    }

    /** In lines: the last line delivered lies in the iMCU rows that the data yields. */
    lemma DecodesWhen(dstWidth: int, dstHeight: int)
      requires Shape()
      ensures var imcu := GetImageScanlinesPerImcuRow();
        CanDecode(dstWidth, dstHeight) <==> (
          && dstWidth == width && dstHeight <= height && starts
          && (asserts ==> Aligned(PartialSkip(height, dstHeight, imcu)))
          && Skip(height, dstHeight) + Delivered(height, dstHeight, imcu) <= imcu * available)
    {
      hide Aligned, Needed, Delivered;
      NeededReaches(height, dstHeight, GetImageScanlinesPerImcuRow(), available);
    }

    lemma NothingWritten(planes: seq<seq<Row>>, top: int, k: int)
      requires Shape() && |planes| == |image| && 0 <= top <= k * GetImageScanlinesPerImcuRow() && k <= available
      ensures AllWritten(planes, planes, top, 0, 0)
    {
      forall i | 0 <= i < |image| && 0 < GetVertSubSampFactor(i)
        ensures Handed(i, planes[i], planes[i], top, 0, 0)
      {
        RowsPerImcu(i);
        var vs, m := GetVertSubSampFactor(i), ComponentRows(i);
        WholeRows(vs, 0);
        EarlyRow(vs, m, top, k, available);
      }
    }

    lemma PartialReady(k: int, top: int, skip: int, planes: seq<seq<Row>>)
      requires Shape() && |planes| == |image| && 0 <= k < available && 0 <= top
      requires k == top / GetImageScanlinesPerImcuRow() && skip == top % GetImageScanlinesPerImcuRow()
      ensures k * GetImageScanlinesPerImcuRow() + skip == top
      ensures (k + 1) * GetImageScanlinesPerImcuRow() == top + (GetImageScanlinesPerImcuRow() - skip)
      ensures AllWritten(planes, planes, top, 0, 0)
    {
      var imcu := GetImageScanlinesPerImcuRow();
      assert top == imcu * (top / imcu) + top % imcu;
      NextIndex(k, imcu);
      NothingWritten(planes, top, k + 1);
    }

    lemma WholeReady(k: int, top: int, planes: seq<seq<Row>>)
      requires Shape() && |planes| == |image| && 0 <= k <= available && 0 <= top
      requires k == top / GetImageScanlinesPerImcuRow() && top % GetImageScanlinesPerImcuRow() == 0
      ensures k * GetImageScanlinesPerImcuRow() == top && AllWritten(planes, planes, top, 0, 0)
    {
      var imcu := GetImageScanlinesPerImcuRow();
      assert top == imcu * (top / imcu) + top % imcu;
      NothingWritten(planes, top, k);
    }

    /** There is no call to skip lines, so whole iMCU rows above the crop are read and dropped. */
    method SkipImcuRows(dstHeight: int) returns (ok: bool, skip: int)
      requires Valid() && next == 0 && dstHeight <= height
      modifies this
      ensures Valid()
      ensures ok ==> next <= available
      ensures ok ==> next == Skip(height, dstHeight) / GetImageScanlinesPerImcuRow()
      ensures ok ==> skip == PartialSkip(height, dstHeight, GetImageScanlinesPerImcuRow())
      ensures ok ==> var imcu := GetImageScanlinesPerImcuRow();
        0 <= skip < imcu && 0 <= height - dstHeight - 2 * (next * imcu + skip) <= 1
      ensures !ok ==> available < Needed(height, dstHeight, GetImageScanlinesPerImcuRow())
    {
      hide DivideAndRoundUp, Needed, ComponentRows;
      var imcu := GetImageScanlinesPerImcuRow();
      ok, skip := true, (height - dstHeight) / 2;
      while skip >= imcu
        invariant Valid() && 0 <= skip && skip + next * imcu == Skip(height, dstHeight) && next <= available
        decreases skip
      {
        NeededSoFar(height, dstHeight, imcu, next, skip);
        ok := DecodeImcuRow();
        if !ok {
          return false, skip;
        }
        NextIndex(next - 1, imcu);
        skip := skip - imcu;
      }
      SkipIs(Skip(height, dstHeight), imcu, next, skip);
    }

    /** Full iMCU rows while more than one is left, then the lines of the last one. */
    method DecodeRest(ghost before: seq<seq<Row>>, planes: seq<seq<Row>>, lines: int, ghost top: int, ghost n: int)
      returns (ok: bool, out: seq<seq<Row>>, ghost m: int, ghost l: int)
      requires Valid() && AllWritten(before, planes, top, n, 0) && 0 <= n
      requires next * GetImageScanlinesPerImcuRow() == top + n && next <= available
      modifies this
      ensures Valid() && AllWritten(before, out, top, m, l)
      ensures ok
        <==> old(next) + (if lines > 0 then DivideAndRoundUp(lines, GetImageScanlinesPerImcuRow()) else 0) <= available
      ensures ok ==> m + l == n + (if lines > 0 then lines else 0) && (m - n) % GetImageScanlinesPerImcuRow() == 0
      ensures !ok ==> l == 0 && top + m == available * GetImageScanlinesPerImcuRow()
    {
      hide DivideAndRoundUp, ComponentRows, AllWritten, Chunk;
      out, m, l := planes, n, 0;
      var linesLeft, imcu := lines, GetImageScanlinesPerImcuRow();
      ghost var start, total := next, next + (if lines > 0 then DivideAndRoundUp(lines, imcu) else 0);
      while linesLeft > imcu
        invariant Valid() && AllWritten(before, out, top, m, 0)
        invariant start <= next && m == n + (next - start) * imcu
        invariant next * imcu == top + m && next <= available
        invariant m + linesLeft == n + lines && (lines > 0 <==> linesLeft > 0)
        invariant total == next + (if linesLeft > 0 then DivideAndRoundUp(linesLeft, imcu) else 0)
      {
        OneMore(linesLeft, imcu);
        ghost var k := next;
        ok := DecodeImcuRow();
        if !ok {
          return false, out, m, 0;
        }
        NextIndex(k, imcu);
        NextIndex(k - start, imcu);
        ReadyIs(k, top, m);
        out := CopyWhole(before, out, k, top, m);
        m := m + imcu;
        linesLeft := linesLeft - imcu;
      }
      ok := true;
      WholeCount(next - start, imcu);
      if linesLeft > 0 {
        DivideUpIs(linesLeft, imcu, 1);
        ghost var k := next;
        ok := DecodeImcuRow();
        if !ok {
          return false, out, m, 0;
        }
        ReadyIs(k, top, m);
        out := CopyLast(before, out, linesLeft, k, top, m);
        l := linesLeft;
      }
    }

    lemma ReadyIs(k: int, top: int, n: int)
      requires Valid() && 0 <= k && |databuf| == |image| && k * GetImageScanlinesPerImcuRow() == top + n
      requires forall i | 0 <= i < |image| :: Chunk(i, k, databuf[i])
      ensures Ready(k, top, n, 0)
    {
    }

    /** What every component has been handed when the decode has run to its end. */
    ghost predicate Complete(before: seq<seq<Row>>, after: seq<seq<Row>>, dstHeight: int)
      requires Shape()
    {
      && |before| == |after| == |image|
      && forall i | 0 <= i < |image| && 0 < GetVertSubSampFactor(i) :: CompleteAt(i, before[i], after[i], dstHeight)
    }

    ghost predicate CompleteAt(i: int, before: seq<Row>, after: seq<Row>, dstHeight: int)
      requires Shape() && 0 <= i < |image| && 0 < GetVertSubSampFactor(i)
    {
      Written(i, before, after, Skip(height, dstHeight),
              ComponentDelivered(height, dstHeight, GetImageScanlinesPerImcuRow(), GetVertSubSampFactor(i)))
    }

    /** Lines of the crop up to the first whole iMCU row, and from there on. */
    function Head(dstHeight: int): int
      requires Shape()
    {
      var s := PartialSkip(height, dstHeight, GetImageScanlinesPerImcuRow());
      if s > 0 then GetImageScanlinesPerImcuRow() - s else 0
    }

    function Tail(dstHeight: int): int
      requires Shape()
    {
      var rest := Rest(height, dstHeight, GetImageScanlinesPerImcuRow());
      if rest > 0 then rest else 0
    }

    /** The whole iMCU rows may be counted with the lines before or after them. */
    lemma Completed(before: seq<seq<Row>>, after: seq<seq<Row>>, dstHeight: int, n: int, l: int)
      requires Shape() && AllWritten(before, after, Skip(height, dstHeight), n, l)
      requires n + l == Head(dstHeight) + Tail(dstHeight) && (n - Head(dstHeight)) % GetImageScanlinesPerImcuRow() == 0
      ensures Complete(before, after, dstHeight)
    {
      hide Head, Tail, Handed, Written, CompleteAt;
      forall i | 0 <= i < |image| && 0 < GetVertSubSampFactor(i)
        ensures CompleteAt(i, before[i], after[i], dstHeight)
      {
        CompletedAt(i, before[i], after[i], dstHeight, n, l, (n - Head(dstHeight)) / GetImageScanlinesPerImcuRow());
      }
    }

    lemma CompletedAt(i: int, before: seq<Row>, after: seq<Row>, dstHeight: int, n: int, l: int, q: int)
      requires Shape() && 0 <= i < |image| && 0 < GetVertSubSampFactor(i)
      requires Handed(i, before, after, Skip(height, dstHeight), n, l)
      requires n + l == Head(dstHeight) + Tail(dstHeight) && n == Head(dstHeight) + q * GetImageScanlinesPerImcuRow()
      ensures CompleteAt(i, before, after, dstHeight)
    {
      RowsPerImcu(i);
      TwoParts(i, dstHeight);
      hide Head, Tail, Written, DivideAndRoundUp, ComponentDelivered;
      WholeShifts(GetVertSubSampFactor(i), ComponentRows(i), Head(dstHeight), q, l);
    }

    lemma TwoParts(i: int, dstHeight: int)
      requires Shape() && 0 <= i < |image| && 0 < GetVertSubSampFactor(i)
      ensures var vs := GetVertSubSampFactor(i);
        ComponentDelivered(height, dstHeight, GetImageScanlinesPerImcuRow(), vs)
        == DivideAndRoundUp(Head(dstHeight), vs) + DivideAndRoundUp(Tail(dstHeight), vs)
    {
      WholeRows(GetVertSubSampFactor(i), 0);
    }

    /** Every row that the data yielded has been handed over. */
    ghost predicate EndedEarly(before: seq<seq<Row>>, after: seq<seq<Row>>, skip: int, n: int)
      requires Shape()
    {
      AllWritten(before, after, skip, n, 0) && skip + n == available * GetImageScanlinesPerImcuRow()
    }

    lemma AlignedNone()
      requires Shape()
      ensures Aligned(0)
    {
    }

    method DecodeToBuffers(planes: seq<seq<Row>>, dstWidth: int, dstHeight: int)
      returns (outcome: Outcome, out: seq<seq<Row>>, ghost n: int, ghost l: int)
      requires Valid() && |planes| == |image|
      modifies this
      ensures Valid()
      ensures outcome == Success <==> CanDecode(dstWidth, dstHeight)
      ensures dstHeight <= height ==> 0 <= height - dstHeight - 2 * Skip(height, dstHeight) <= 1
      ensures outcome == Aborted ==> asserts && !Aligned(PartialSkip(height, dstHeight, GetImageScanlinesPerImcuRow()))
      ensures outcome == Success ==> n + l == Delivered(height, dstHeight, GetImageScanlinesPerImcuRow())
      ensures outcome == Success ==> Complete(planes, out, dstHeight)
      ensures outcome == Failure ==> out == planes || EndedEarly(planes, out, Skip(height, dstHeight), n)
    {
      hide DivideAndRoundUp, ComponentRows, AllWritten, Complete, Aligned, Chunk;
      n, l, out := 0, 0, planes;
      if dstWidth != width || dstHeight > height {
        return Failure, out, n, l;
      }
      var ok := StartDecode();
      if !ok {
        return Failure, out, n, l;
      }
      var imcu := GetImageScanlinesPerImcuRow();
      ghost var top := Skip(height, dstHeight);
      var linesLeft := dstHeight;
      var skip;
      ok, skip := SkipImcuRows(dstHeight);
      if !ok {
        return Failure, out, n, l;
      }
      ghost var k := next;
      if skip > 0 {
        // The crop begins inside the next iMCU row.
        NeededAfterSkip(height, dstHeight, imcu);
        ok := DecodeImcuRow();
        if !ok {
          return Failure, out, n, l;
        }
        PartialReady(k, top, skip, planes);
        var aligned;
        aligned, out := CopyAfterSkip(planes, planes, skip, k, top);
        if !aligned {
          return Aborted, out, n, l;
        }
        n := imcu - skip;
        linesLeft := linesLeft - (imcu - skip);
      } else {
        WholeReady(k, top, planes);
        AlignedNone();
      }
      ok, out, n, l := DecodeRest(planes, out, linesLeft, top, n);
      if ok {
        Completed(planes, out, dstHeight, n, l);
      }
      outcome := if ok then Success else Failure;
    }
  }

  lemma SliceJoins<Row>(all: seq<Row>, start: int, m: int, a: int, b: int, f: int, c: int)
    requires 0 <= start && start + m <= |all| && 0 <= a && 0 <= b && 0 <= f && 0 <= c && f + c <= m
    requires start + f == a + b
    ensures a + b + c <= |all| && all[a..a + b] + all[start..start + m][f..f + c] == all[a..a + b + c]
  {
    var chunk := all[start..start + m];
    var part := chunk[f..f + c];
    assert forall i | 0 <= i < c :: part[i] == chunk[f + i] == all[start + f + i];
    assert part == all[a + b..a + b + c];
  }

  lemma Indices(vs: int, m: int, k: int, skip: int, n: int, from: int, add: int)
    requires 0 < vs && 0 <= from && 0 <= add && (n == 0 || from == 0)
    requires k * (vs * m) + from == skip + n && from + add <= vs * m
    ensures 0 <= from / vs && 0 <= DivideAndRoundUp(add, vs) && from / vs + DivideAndRoundUp(add, vs) <= m
    ensures k * m + from / vs == skip / vs + DivideAndRoundUp(n, vs)
    ensures m - from / vs == DivideAndRoundUp(vs * m - from, vs)
  {
    hide *;
    WholeRows(vs, 0);
    UpComplement(vs, m, from);
    UpMonotone(vs, 0, add);
    UpMonotone(vs, add, vs * m - from);
    assert k * (vs * m) == vs * (k * m);
    if n == 0 {
      DownAfterWhole(vs, k * m, from);
    } else {
      UpComplement(vs, k * m, skip);
    }
  }

  /** What remains of a whole number of rows, rounded up, when what is gone is rounded down. */
  lemma UpComplement(vs: int, a: int, t: int)
    requires 0 < vs
    ensures DivideAndRoundUp(vs * a - t, vs) == a - t / vs
    ensures 0 <= t ==> 0 <= t / vs
  {
    assert vs * (a - t / vs) == vs * a - vs * (t / vs);
    DivideUpIs(vs * a - t, vs, a - t / vs);
  }

  lemma UpMonotone(vs: int, a: int, b: int)
    requires 0 < vs && a <= b
    ensures DivideAndRoundUp(a, vs) <= DivideAndRoundUp(b, vs)
  {
    var p, q := DivideAndRoundUp(a, vs), DivideAndRoundUp(b, vs);
    DivideUp(a, vs);
    DivideUp(b, vs);
    hide DivideAndRoundUp;
    if q < p {
      MultiplesUp(vs, q, p);
    }
  }

  lemma DownAfterWhole(vs: int, a: int, t: int)
    requires 0 < vs
    ensures (vs * a + t) / vs == a + t / vs
  {
    UpComplement(vs, 0, vs * a + t);
    UpComplement(vs, 0, t);
    hide DivideAndRoundUp;
    assert vs * 0 - (vs * a + t) == vs * -a + (vs * 0 - t);
    UpAfterWhole(vs, -a, vs * 0 - t);
  }

  /** Whole iMCU rows count the same before and after the cut. */
  lemma WholeShifts(vs: int, m: int, head: int, q: int, l: int)
    requires 0 < vs
    ensures DivideAndRoundUp(head + q * (vs * m), vs) + DivideAndRoundUp(l, vs)
         == DivideAndRoundUp(head, vs) + DivideAndRoundUp(q * (vs * m) + l, vs)
  {
    assert q * (vs * m) == vs * (q * m);
    UpAfterWhole(vs, q * m, head);
    UpAfterWhole(vs, q * m, l);
  }

  lemma WholeCount(q: int, imcu: int)
    requires 0 < imcu
    ensures q * imcu % imcu == 0
  {
    MultipleOf(imcu, q);
  }

  lemma EarlyRow(vs: int, m: int, top: int, k: int, available: int)
    requires 0 < vs && 0 <= top <= k * (vs * m) && k <= available && 0 < m
    ensures 0 <= top / vs <= available * m
  {
    assert k * (vs * m) == vs * (k * m);
    if top / vs > k * m {
      Multiples(vs, k * m + 1, top / vs);
    }
    Multiples(m, k, available);
  }

  lemma SkipIs(top: int, imcu: int, k: int, skip: int)
    requires 0 < imcu && skip + k * imcu == top && 0 <= skip < imcu
    ensures top / imcu == k && top % imcu == skip
  {
    assert top == imcu * (top / imcu) + top % imcu;
    var d := top / imcu - k;
    assert imcu * d == skip - top % imcu;
    if d >= 1 {
      Multiples(imcu, 1, d);
    } else if d <= -1 {
      Multiples(imcu, d, -1);
    }
  }

  /** While whole iMCU rows are skipped, every row read is one of those needed. */
  lemma NeededSoFar(height: int, dstHeight: int, imcu: int, k: int, skip: int)
    requires 0 < imcu && 0 <= skip && 0 <= k && skip + k * imcu == Skip(height, dstHeight)
    ensures Needed(height, dstHeight, imcu) >= k + (if skip >= imcu then 1 else 0)
  {
    var top, rest := Skip(height, dstHeight), Rest(height, dstHeight, imcu);
    assert top == imcu * (top / imcu) + top % imcu;
    var d := top / imcu - k;
    assert imcu * d == skip - top % imcu;
    if d < 0 {
      Multiples(imcu, d, -1);
    } else if d == 0 && skip >= imcu {
      assert false;
    }
    if rest > 0 {
      DivideUp(rest, imcu);
      if DivideAndRoundUp(rest, imcu) < 0 {
        Multiples(imcu, DivideAndRoundUp(rest, imcu), -1);
      }
    }
  }

  lemma OneMore(lines: int, imcu: int)
    requires 0 < imcu < lines
    ensures DivideAndRoundUp(lines, imcu) == 1 + DivideAndRoundUp(lines - imcu, imcu) >= 2
  {
    UpAfterWhole(imcu, 1, lines - imcu);
    DivideUp(lines - imcu, imcu);
    if DivideAndRoundUp(lines - imcu, imcu) <= 0 {
      Multiples(imcu, DivideAndRoundUp(lines - imcu, imcu), 0);
    }
  }

  lemma NeededAfterSkip(height: int, dstHeight: int, imcu: int)
    requires 0 < imcu && PartialSkip(height, dstHeight, imcu) > 0
    ensures Needed(height, dstHeight, imcu) >= Skip(height, dstHeight) / imcu + 1
  {
    var rest := Rest(height, dstHeight, imcu);
    if rest > 0 {
      DivideUp(rest, imcu);
      if DivideAndRoundUp(rest, imcu) < 0 {
        Multiples(imcu, DivideAndRoundUp(rest, imcu), -1);
      }
    }
  }

  lemma NextIndex(k: int, m: int)
    ensures (k + 1) * m == k * m + m
  {
  }

  lemma Distributes(k: int, a: int, b: int)
    ensures k * (a - b) == k * a - k * b
  {
  }

  lemma WholeRows(vs: int, b: int)
    requires 0 < vs
    ensures DivideAndRoundUp(vs * b, vs) == b && (vs * b) % vs == 0
  {
    DivideUpIs(vs * b, vs, b);
    MultipleOf(vs, b);
  }

  lemma UpAfterWhole(vs: int, b: int, add: int)
    requires 0 < vs
    ensures DivideAndRoundUp(vs * b + add, vs) == b + DivideAndRoundUp(add, vs)
  {
    var c := DivideAndRoundUp(add, vs);
    DivideUp(add, vs);
    assert vs * (b + c) == vs * b + vs * c;
    DivideUpIs(vs * b + add, vs, b + c);
  }

  lemma MultipleOf(k: int, q: int)
    requires 0 < k
    ensures (k * q) % k == 0
  {
    var r := (k * q) % k;
    var p := (k * q) / k;
    assert k * (q - p) == r;
    if q - p >= 1 {
      Multiples(k, 1, q - p);
    } else if q - p < 0 {
      Multiples(k, q - p, -1);
    }
  }
}
