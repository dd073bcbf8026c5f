/** mjpeg_decoder.cc and convert_jpeg.cc: a 4:2:0 frame decoded chunk by chunk through the
    callback that copies it into an I420 image. */
module MjpegI420 {
  import opened Views
  import opened Planar
  import opened MjpegRows

  /** The destination and its cursor at some moment. */
  datatype Snapshot = Snapshot(yMem: seq<byte>, uMem: seq<byte>, vMem: seq<byte>, y: int, u: int, v: int, h: int)

  /** The callback's cursor: where the next chunk goes, and how many rows are still wanted. */
  class I420Buffers {
    const yMem: array<byte>
    const yStride: int
    const uMem: array<byte>
    const uStride: int
    const vMem: array<byte>
    const vStride: int
    const w: int
    var y: int
    var u: int
    var v: int
    var h: int

    constructor (yMem: array<byte>, y: int, yStride: int, uMem: array<byte>, u: int, uStride: int,
                 vMem: array<byte>, v: int, vStride: int, w: int, h: int)
      ensures this.yMem == yMem && this.yStride == yStride && this.uMem == uMem && this.uStride == uStride
      ensures this.vMem == vMem && this.vStride == vStride && this.w == w
      ensures this.y == y && this.u == u && this.v == v && this.h == h
    {
      this.yMem, this.yStride, this.uMem, this.uStride := yMem, yStride, uMem, uStride;
      this.vMem, this.vStride, this.w := vMem, vStride, w;
      this.y, this.u, this.v, this.h := y, u, v, h;
    }

    ghost function Snap(): Snapshot
      reads this, yMem, uMem, vMem
    {
      Snapshot(yMem[..], uMem[..], vMem[..], y, u, v, h)
    }

    /** Room for n more rows. */
    ghost predicate Room(n: int)
      reads this`y, this`u, this`v
    {
      && yMem != uMem && yMem != vMem && uMem != vMem
      && InBounds(Plane(y, yStride), w, n, yMem.Length) && Distinct(Plane(y, yStride), w, n)
      && InBounds(Plane(u, uStride), Half(w), Half(n), uMem.Length) && Distinct(Plane(u, uStride), Half(w), Half(n))
      && InBounds(Plane(v, vStride), Half(w), Half(n), vMem.Length) && Distinct(Plane(v, vStride), Half(w), Half(n))
    }
  }

  /** Copies `rows` rows of the frame and moves the cursor past them. */
  method JpegCopyI420(dest: I420Buffers, dataY: Surface, dataU: Surface, dataV: Surface, rows: int)
    requires dataY.mem != null && dataU.mem != null && dataV.mem != null && 0 < dest.w && 0 < rows
    requires dest.Room(rows)
    requires {dataY.mem, dataU.mem, dataV.mem} !! {dest.yMem, dest.uMem, dest.vMem}
    requires dataY.Readable(dest.w, rows) && dataU.Readable(Half(dest.w), Half(rows))
    requires dataV.Readable(Half(dest.w), Half(rows))
    modifies dest, dest.yMem, dest.uMem, dest.vMem
    ensures dest.y == old(dest.y) + rows * dest.yStride && dest.h == old(dest.h) - rows
    ensures dest.u == old(dest.u) + Half(rows) * dest.uStride && dest.v == old(dest.v) + Half(rows) * dest.vStride
    ensures Copied(old(dest.yMem[..]), dest.yMem[..], Plane(old(dest.y), dest.yStride), dest.w, rows, dataY.mem[..],
                   dataY.AsPlane())
    ensures Copied(old(dest.uMem[..]), dest.uMem[..], Plane(old(dest.u), dest.uStride), Half(dest.w), Half(rows),
                   dataU.mem[..], dataU.AsPlane())
    ensures Copied(old(dest.vMem[..]), dest.vMem[..], Plane(old(dest.v), dest.vStride), Half(dest.w), Half(rows),
                   dataV.mem[..], dataV.AsPlane())
  {
    hide View.At, Copied, InBounds, Distinct;
    var _ := I420Copy(dataY, dataU, dataV, Surface(dest.yMem, dest.y, dest.yStride),
                      Surface(dest.uMem, dest.u, dest.uStride),
                      Surface(dest.vMem, dest.v, dest.vStride), dest.w, rows);
    dest.y := dest.y + rows * dest.yStride;
    dest.u := dest.u + (rows + 1) / 2 * dest.uStride;
    dest.v := dest.v + (rows + 1) / 2 * dest.vStride;
    dest.h := dest.h - rows;
  }

  // ----- one plane, chunk by chunk

  /** Rows first .. first + n of a decoded component stand in the plane at off. */
  ghost predicate PlaneDone(m0: seq<byte>, m: seq<byte>, off: int, stride: int, w: int, n: int, image: seq<byte>,
                            imageStride: int, first: int) {
    Copied(m0, m, Plane(off, stride), w, n, image, Plane(first * imageStride, imageStride))
  }

  /** The buffer is iMCU row k, rows image rows at a time, of the component. */
  ghost predicate Holds(buf: seq<byte>, image: seq<byte>, imageStride: int, rows: int, k: int) {
    var size := rows * imageStride;
    && 0 <= k * size <= k * size + size <= |image|
    && buf == image[k * size..k * size + size]
  }

  lemma BufferByte(buf: seq<byte>, image: seq<byte>, stride: int, rows: int, k: int, b: int, w: int, n: int, x: int,
                   j: int)
    requires Holds(buf, image, stride, rows, k) && 0 <= w <= stride && 0 <= b && b + n <= rows && 0 <= x < w
    requires 0 <= j < n
    ensures 0 <= Plane(b * stride, stride).At(x, j) < |buf| == rows * stride
    ensures 0 <= Plane((k * rows + b) * stride, stride).At(x, j) < |image|
    ensures buf[Plane(b * stride, stride).At(x, j)] == image[Plane((k * rows + b) * stride, stride).At(x, j)]
  {
    BufferAddresses(stride, rows, k, b, x, j);
    hide View.At, Plane;
    RowInBuffer(stride, rows, b + j, x);
  }

  lemma BufferAddresses(stride: int, rows: int, k: int, b: int, x: int, j: int)
    ensures Plane(b * stride, stride).At(x, j) == (b + j) * stride + x
    ensures Plane((k * rows + b) * stride, stride).At(x, j) == k * (rows * stride) + ((b + j) * stride + x)
  {
    assert (b + j) * stride == b * stride + j * stride;
    assert (k * rows + b) * stride == k * (rows * stride) + b * stride;
  }

  lemma RowInBuffer(stride: int, rows: int, r: int, x: int)
    requires 0 <= r < rows && 0 <= x < stride
    ensures 0 <= r * stride + x < rows * stride
  {
    assert (r + 1) * stride <= rows * stride;
    assert (r + 1) * stride == r * stride + stride;
  }

  /** The next chunk, read from row b of the buffer, continues the plane. */
  lemma PlaneAppend(m0: seq<byte>, m1: seq<byte>, m2: seq<byte>, off: int, stride: int, w: int, n: int, add: int,
                    full: int,
                    image: seq<byte>, imageStride: int, first: int, buf: seq<byte>, rows: int, k: int, b: int)
    requires 0 <= n && 0 <= add && n + add <= full && 0 <= w <= imageStride
    requires InBounds(Plane(off, stride), w, full, |m0|) && Distinct(Plane(off, stride), w, full)
    requires PlaneDone(m0, m1, off, stride, w, n, image, imageStride, first)
    requires Holds(buf, image, imageStride, rows, k) && 0 <= b && b + add <= rows && k * rows + b == first + n
    requires Copied(m1, m2, Plane(off + n * stride, stride), w, add, buf, Plane(b * imageStride, imageStride))
    ensures PlaneDone(m0, m2, off, stride, w, n + add, image, imageStride, first)
  {
    hide View.At, View.Shift, Plane, Holds, Distinct;
    var dv, sv := Plane(off, stride), Plane(first * imageStride, imageStride);
    var next := Plane((first + n) * imageStride, imageStride);
    PlaneDown(off, stride, n);
    FurtherDown(first, n, imageStride);
    forall x, y | 0 <= x < w && 0 <= y < add
      ensures 0 <= next.At(x, y) < |image|
    {
      BufferByte(buf, image, imageStride, rows, k, b, w, add, x, y);
    }
    forall x, y | 0 <= x < w && 0 <= y < add
      ensures buf[Plane(b * imageStride, imageStride).At(x, y)] == image[next.At(x, y)]
    {
      BufferByte(buf, image, imageStride, rows, k, b, w, add, x, y);
    }
    CopiedVia(m1, m2, dv.Shift(0, n), w, add, buf, Plane(b * imageStride, imageStride), image, next);
    JoinBounds(sv, w, n, add, |image|);
    FewerRows(dv, w, n + add, full, |m0|);
    StackRows(m0, m1, m2, dv, w, n, add, n + add, image, sv);
  }

  lemma FewerRows(v: View, w: int, n: int, full: int, len: int)
    requires n <= full && InBounds(v, w, full, len) && Distinct(v, w, full)
    ensures InBounds(v, w, n, len) && Distinct(v, w, n)
  {
    hide View.At;
  }

  lemma FurtherDown(first: int, n: int, stride: int)
    ensures Plane((first + n) * stride, stride) == Plane(first * stride, stride).Shift(0, n)
  {
    PlaneDown(first * stride, stride, n);
    assert (first + n) * stride == first * stride + n * stride;
  }

  lemma JoinBounds(v: View, w: int, n: int, add: int, len: int)
    requires 0 <= n && InBounds(v, w, n, len) && InBounds(v.Shift(0, n), w, add, len)
    ensures InBounds(v, w, n + add, len)
  {
    hide View.At, View.Shift;
    forall x, y | 0 <= x < w && 0 <= y < n + add
      ensures 0 <= v.At(x, y) < len
    {
      if y >= n {
        ShiftAt(v, 0, n, x, y - n);
      }
    }
  }

  /** Chunk by chunk or in one copy of the whole crop, the destination ends up the same. */
  lemma ChunksAreOneCopy(m0: seq<byte>, chunks: seq<byte>, once: seq<byte>, off: int, stride: int, w: int, n: int,
                         image: seq<byte>, imageStride: int, first: int)
    requires PlaneDone(m0, chunks, off, stride, w, n, image, imageStride, first)
    requires Copied(m0, once, Plane(off, stride), w, n, image, Plane(0, imageStride).Shift(0, first))
    ensures chunks == once
  {
    PlaneDown(0, imageStride, first);
    hide View.At;
    CopiedUnique(m0, chunks, once, Plane(off, stride), w, n, image, Plane(first * imageStride, imageStride));
  }

  // ----- the decoder

  const IMCU: int := 16

  /** The next multiple of the block size. */
  lemma RoundedUp(n: int)
    ensures RoundUpToDct(n) % 8 == 0 && n <= RoundUpToDct(n) < n + 8
  {
  }

  function RoundUpToDct(n: int): int {
    (n + DCTSIZE - 1) / DCTSIZE * DCTSIZE
  }

  /** A loaded 4:2:0 frame: the luma plane and two chroma planes of half its size, each padded to
      whole iMCU rows, of which `available` can be read before libjpeg reports an error. */
  class I420Decoder {
    const width: int
    const height: int
    const yImage: seq<byte>
    const uImage: seq<byte>
    const vImage: seq<byte>
    const starts: bool
    const available: int
    // Builds without assertions go on where the crop begins on an odd line.
    const asserts: bool
    const yBuf: array<byte>
    const uBuf: array<byte>
    const vBuf: array<byte>
    var next: int
    // databuf_: where the callback finds each component, moved while part of an iMCU row is skipped.
    var yData: int
    var uData: int
    var vData: int

    function YStride(): int {
      RoundUpToDct(width)
    }

    function CStride(): int {
      RoundUpToDct(DivideAndRoundUp(width, 2))
    }

    ghost predicate Shape() {
      && 0 < width && 0 <= available
      && |yImage| == available * (16 * YStride()) && |uImage| == available * (8 * CStride())
      && |vImage| == available * (8 * CStride())
      && yBuf.Length == 16 * YStride() && uBuf.Length == 8 * CStride() && vBuf.Length == 8 * CStride()
      && yBuf != uBuf && yBuf != vBuf && uBuf != vBuf
    }

    ghost predicate Valid()
      reads this
    {
      Shape() && 0 <= next && yData == 0 && uData == 0 && vData == 0
    }

    constructor (width: int, height: int, yImage: seq<byte>, uImage: seq<byte>, vImage: seq<byte>, starts: bool,
                 available: int,
                 asserts: bool)
      requires 0 < width && 0 <= available
      requires |yImage| == available * (16 * RoundUpToDct(width))
      requires |uImage| == |vImage| == available * (8 * RoundUpToDct(DivideAndRoundUp(width, 2)))
      ensures Valid() && fresh(yBuf) && fresh(uBuf) && fresh(vBuf)
      ensures this.width == width && this.height == height && this.starts == starts && this.available == available
      ensures this.asserts == asserts
      ensures this.yImage == yImage && this.uImage == uImage && this.vImage == vImage
    {
      this.width, this.height, this.starts, this.available, this.asserts := width, height, starts, available, asserts;
      this.yImage, this.uImage, this.vImage := yImage, uImage, vImage;
      yBuf := new byte[16 * RoundUpToDct(width)];
      uBuf := new byte[8 * RoundUpToDct(DivideAndRoundUp(width, 2))];
      vBuf := new byte[8 * RoundUpToDct(DivideAndRoundUp(width, 2))];
      next, yData, uData, vData := 0, 0, 0, 0;
    }

    /** The buffers hold iMCU row k. */
    ghost predicate Loaded(k: int)
      reads yBuf, uBuf, vBuf
    {
      && Holds(yBuf[..], yImage, YStride(), 16, k)
      && Holds(uBuf[..], uImage, CStride(), 8, k)
      && Holds(vBuf[..], vImage, CStride(), 8, k)
    }

    method StartDecode() returns (ok: bool)
      requires Valid()
      modifies this`next
      ensures Valid() && ok == starts && next == 0
    {
      next := 0;
      ok := starts;
    }

    method DecodeImcuRow() returns (ok: bool)
      requires Valid()
      modifies this`next, yBuf, uBuf, vBuf
      ensures Valid() && ok == (old(next) < available)
      ensures next == (if ok then old(next) + 1 else old(next))
      ensures ok ==> Loaded(old(next))
    {
      ok := next < available;
      if ok {
        ChunkInside(next, available, 16 * YStride());
        ChunkInside(next, available, 8 * CStride());
        var y, c := next * (16 * YStride()), next * (8 * CStride());
        forall i | 0 <= i < yBuf.Length {
          yBuf[i] := yImage[y + i];
        }
        forall i | 0 <= i < uBuf.Length {
          uBuf[i] := uImage[c + i];
        }
        forall i | 0 <= i < vBuf.Length {
          vBuf[i] := vImage[c + i];
        }
        assert yBuf[..] == yImage[y..y + yBuf.Length];
        assert uBuf[..] == uImage[c..c + uBuf.Length];
        assert vBuf[..] == vImage[c..c + vBuf.Length];
        next := next + 1;
      }
    }

    /** n luma rows of the frame, from line top on, and c rows of each chroma plane have been handed to
        the destination, and the cursor stands right behind them. */
    ghost predicate Handed(s: Snapshot, dest: I420Buffers, top: int, n: int, c: int)
      reads dest, dest.yMem, dest.uMem, dest.vMem
    {
      && dest.y == s.y + n * dest.yStride && dest.h == s.h - n
      && dest.u == s.u + c * dest.uStride && dest.v == s.v + c * dest.vStride
      && PlaneDone(s.yMem, dest.yMem[..], s.y, dest.yStride, dest.w, n, yImage, YStride(), top)
      && PlaneDone(s.uMem, dest.uMem[..], s.u, dest.uStride, Half(dest.w), c, uImage, CStride(), top / 2)
      && PlaneDone(s.vMem, dest.vMem[..], s.v, dest.vStride, Half(dest.w), c, vImage, CStride(), top / 2)
    }

    /** The destination shares no buffer with the decoder. */
    predicate Foreign(dest: I420Buffers) {
      && yBuf != dest.yMem && yBuf != dest.uMem && yBuf != dest.vMem
      && uBuf != dest.yMem && uBuf != dest.uMem && uBuf != dest.vMem
      && vBuf != dest.yMem && vBuf != dest.uMem && vBuf != dest.vMem
    }

    /** The destination had room for `full` luma rows and fullC rows of chroma when the decode began. */
    ghost predicate RoomFor(s: Snapshot, dest: I420Buffers, full: int, fullC: int)
      reads {}
    {
      && dest.yMem != dest.uMem && dest.yMem != dest.vMem && dest.uMem != dest.vMem
      && Foreign(dest)
      && |s.yMem| == dest.yMem.Length && |s.uMem| == dest.uMem.Length && |s.vMem| == dest.vMem.Length
      && InBounds(Plane(s.y, dest.yStride), dest.w, full, |s.yMem|) && Distinct(Plane(s.y, dest.yStride), dest.w, full)
      && InBounds(Plane(s.u, dest.uStride), Half(dest.w), fullC, |s.uMem|)
      && Distinct(Plane(s.u, dest.uStride), Half(dest.w), fullC)
      && InBounds(Plane(s.v, dest.vStride), Half(dest.w), fullC, |s.vMem|)
      && Distinct(Plane(s.v, dest.vStride), Half(dest.w), fullC)
    }

    /** Room for the next `rows` rows follows from room for all of them. */
    lemma RoomHere(s: Snapshot, dest: I420Buffers, full: int, fullC: int, n: int, c: int, rows: int)
      requires RoomFor(s, dest, full, fullC) && 0 <= n && 0 <= c && 0 <= rows && n + rows <= full
      requires c + Half(rows) <= fullC
      requires dest.y == s.y + n * dest.yStride && dest.u == s.u + c * dest.uStride && dest.v == s.v + c * dest.vStride
      ensures dest.Room(rows)
    {
      PlaneDown(s.y, dest.yStride, n);
      PlaneDown(s.u, dest.uStride, c);
      PlaneDown(s.v, dest.vStride, c);
      assert 0 <= Half(rows);
      hide View.At, View.Shift, Plane, InBounds, Distinct, Half;
      RowsPart(Plane(s.y, dest.yStride), |s.yMem|, Plane(s.y, dest.yStride), |s.yMem|, dest.w, full, n, rows);
      RowsPart(Plane(s.u, dest.uStride), |s.uMem|, Plane(s.u, dest.uStride), |s.uMem|, Half(dest.w), fullC, c,
               Half(rows));
      RowsPart(Plane(s.v, dest.vStride), |s.vMem|, Plane(s.v, dest.vStride), |s.vMem|, Half(dest.w), fullC, c,
               Half(rows));
    }

    /** A component's buffer can be read from row b on. */
    lemma BufferReadable(buf: array<byte>, image: seq<byte>, stride: int, rows: int, k: int, b: int, w: int, n: int)
      requires Holds(buf[..], image, stride, rows, k) && 0 <= w <= stride && 0 <= b && b + n <= rows
      ensures InBounds(Plane(b * stride, stride), w, n, buf.Length)
    {
      forall x, y | 0 <= x < w && 0 <= y < n
        ensures 0 <= Plane(b * stride, stride).At(x, y) < buf.Length
      {
        BufferByte(buf[..], image, stride, rows, k, b, w, n, x, y);
      }
    }

    lemma StridesFit()
      requires 0 < width
      ensures width <= YStride() && Half(width) <= CStride()
    {
    }

    /** One call of the callback, on the lines of iMCU row k from line b on. */
    method HandChunk(dest: I420Buffers, rows: int, ghost s: Snapshot, ghost full: int, ghost fullC: int, ghost top: int,
                     ghost n: int, ghost c: int, ghost k: int, ghost b: int)
      requires Shape() && dest.w == width && Loaded(k) && RoomFor(s, dest, full, fullC) && Handed(s, dest, top, n, c)
      requires 0 <= n && 0 < rows && n + rows <= full && 0 <= b && b + rows <= 16 && k * 16 + b == top + n
      requires 0 <= c && c + Half(rows) <= fullC && b / 2 + Half(rows) <= 8 && k * 8 + b / 2 == top / 2 + c
      requires yData == b * YStride() && uData == b / 2 * CStride() && vData == b / 2 * CStride()
      modifies dest, dest.yMem, dest.uMem, dest.vMem
      ensures Handed(s, dest, top, n + rows, c + Half(rows))
    {
      ghost var y1, u1, v1 := dest.yMem[..], dest.uMem[..], dest.vMem[..];
      StridesFit();
      assert 0 < Half(rows) && 0 <= Half(width);
      DownRows(s, dest, n, rows, c, Half(rows));
      hide View.At, Plane, Copied, InBounds, Distinct, Holds, PlaneDone, Half, YStride, CStride;
      RoomHere(s, dest, full, fullC, n, c, rows);
      BufferReadable(yBuf, yImage, YStride(), 16, k, b, width, rows);
      BufferReadable(uBuf, uImage, CStride(), 8, k, b / 2, Half(width), Half(rows));
      BufferReadable(vBuf, vImage, CStride(), 8, k, b / 2, Half(width), Half(rows));
      JpegCopyI420(dest, Surface(yBuf, yData, YStride()), Surface(uBuf, uData, CStride()),
                   Surface(vBuf, vData, CStride()), rows);
      PlaneAppend(s.yMem, y1, dest.yMem[..], s.y, dest.yStride, width, n, rows, full, yImage, YStride(), top, yBuf[..],
                  16, k, b);
      PlaneAppend(s.uMem, u1, dest.uMem[..], s.u, dest.uStride, Half(width), c, Half(rows), fullC, uImage, CStride(),
                  top / 2,
                  uBuf[..], 8, k, b / 2);
      PlaneAppend(s.vMem, v1, dest.vMem[..], s.v, dest.vStride, Half(width), c, Half(rows), fullC, vImage, CStride(),
                  top / 2,
                  vBuf[..], 8, k, b / 2);
    }

    lemma DownRows(s: Snapshot, dest: I420Buffers, n: int, rows: int, c: int, rowsC: int)
      ensures s.y + (n + rows) * dest.yStride == s.y + n * dest.yStride + rows * dest.yStride
      ensures s.u + (c + rowsC) * dest.uStride == s.u + c * dest.uStride + rowsC * dest.uStride
      ensures s.v + (c + rowsC) * dest.vStride == s.v + c * dest.vStride + rowsC * dest.vStride
    {
    }

    /** The decode runs to its end exactly when the crop fits the frame, starts on an even line unless
        assertions are off, and libjpeg yields all the iMCU rows the crop needs. */
    ghost predicate CanDecode(dstWidth: int, dstHeight: int) {
      && dstWidth == width && dstHeight <= height && starts
      && (asserts ==> PartialSkip(height, dstHeight, IMCU) % 2 == 0)
      && Needed(height, dstHeight, IMCU) <= available
    }

    /** In lines: the crop begins on an even one, and the last one delivered lies in the iMCU rows that the
        data yields. */
    lemma DecodesWhen(dstWidth: int, dstHeight: int)
      ensures CanDecode(dstWidth, dstHeight) <==> (
        && dstWidth == width && dstHeight <= height && starts
        && (asserts ==> Skip(height, dstHeight) % 2 == 0)
        && Skip(height, dstHeight) + Delivered(height, dstHeight, IMCU) <= IMCU * available)
    {
      hide Needed, Delivered;
      NeededReaches(height, dstHeight, IMCU, available);
    }

    method SkipImcuRows(dstHeight: int) returns (ok: bool, skip: int)
      requires Valid() && next == 0 && dstHeight <= height
      modifies this`next, yBuf, uBuf, vBuf
      ensures Valid()
      ensures ok ==>
        next == Skip(height, dstHeight) / IMCU && skip == PartialSkip(height, dstHeight, IMCU) && next <= available
      ensures ok ==> 0 <= skip < IMCU && 0 <= height - dstHeight - 2 * (next * IMCU + skip) <= 1
      ensures !ok ==> available < Needed(height, dstHeight, IMCU)
    {
      hide DivideAndRoundUp, Needed;
      ok, skip := true, (height - dstHeight) / 2;
      while skip >= IMCU
        invariant Valid() && 0 <= skip && skip + next * IMCU == Skip(height, dstHeight) && next <= available
        decreases skip
      {
        NeededSoFar(height, dstHeight, IMCU, next, skip);
        ok := DecodeImcuRow();
        if !ok {
          return false, skip;
        }
        skip := skip - IMCU;
      }
      SkipIs(Skip(height, dstHeight), IMCU, next, skip);
    }

    /** The partly skipped iMCU row: the callback sees the buffers from the first wanted row on,
        and the buffer pointers are put back afterwards. */
    method HandAfterSkip(dest: I420Buffers, skip: int, ghost s: Snapshot, ghost full: int, ghost fullC: int,
                         ghost top: int, ghost k: int)
      returns (aligned: bool)
      requires Valid() && dest.w == width && Foreign(dest) && Loaded(k) && RoomFor(s, dest, full, fullC)
      requires Handed(s, dest, top, 0, 0)
      requires 0 < skip < IMCU && IMCU - skip <= full && k * IMCU + skip == top
      requires !asserts || skip % 2 == 0 ==> Half(IMCU - skip) <= fullC
      modifies this`yData, this`uData, this`vData, dest, dest.yMem, dest.uMem, dest.vMem
      ensures aligned <==> !asserts || skip % 2 == 0
      ensures aligned ==> Valid() && Handed(s, dest, top, IMCU - skip, Half(IMCU - skip))
      ensures !aligned ==> Handed(s, dest, top, 0, 0)
    {
      hide Handed, Loaded, RoomFor, YStride, CStride;
      var yToSkip, cToSkip := skip * YStride(), skip / 2 * CStride();
      yData := yData + yToSkip;
      if asserts && skip % 2 != 0 {
        return false;
      }
      uData := uData + cToSkip;
      vData := vData + cToSkip;
      var scanlinesToCopy := IMCU - skip;
      HandChunk(dest, scanlinesToCopy, s, full, fullC, top, 0, 0, k, skip);
      yData := yData - yToSkip;
      uData := uData - cToSkip;
      vData := vData - cToSkip;
      return true;
    }

    /** n luma rows and c chroma rows reach exactly to the top of iMCU row k. */
    ghost predicate AtImcuRow(k: int, top: int, n: int, c: int) {
      k * IMCU == top + n && k * 8 == top / 2 + c && 0 <= n && 0 <= c
    }

    /** Lines still wanted, if any. */
    function Wanted(lines: int): int {
      if lines > 0 then lines else 0
    }

    method HandRest(dest: I420Buffers, lines: int, ghost s: Snapshot, ghost full: int, ghost fullC: int, ghost top: int,
                    ghost n: int, ghost c: int)
      returns (ok: bool, ghost m: int, ghost mc: int)
      requires Valid() && dest.w == width && Foreign(dest) && RoomFor(s, dest, full, fullC)
      requires Handed(s, dest, top, n, c)
      requires n + Wanted(lines) <= full && c + Half(Wanted(lines)) <= fullC && AtImcuRow(next, top, n, c)
      requires next <= available
      modifies this`next, yBuf, uBuf, vBuf, dest, dest.yMem, dest.uMem, dest.vMem
      ensures Valid() && Handed(s, dest, top, m, mc)
      ensures ok <==> old(next) + (if lines > 0 then DivideAndRoundUp(lines, IMCU) else 0) <= available
      ensures ok ==> m == n + Wanted(lines) && mc == c + Half(Wanted(lines))
      ensures !ok ==> m == n + IMCU * (available - old(next)) && mc == c + 8 * (available - old(next))
      ensures !ok ==> AtImcuRow(available, top, m, mc)
    {
      hide DivideAndRoundUp, Handed, Loaded, RoomFor, YStride, CStride, Shape;
      m, mc := n, c;
      var linesLeft := lines;
      ghost var start, total := next, next + (if lines > 0 then DivideAndRoundUp(lines, IMCU) else 0);
      // Whole iMCU rows, as long as the crop has that many lines left.
      while linesLeft >= IMCU
        invariant Valid() && Handed(s, dest, top, m, mc) && AtImcuRow(next, top, m, mc)
        invariant m + linesLeft == n + lines && m == n + IMCU * (next - start) && mc == c + 8 * (next - start)
        invariant lines > 0 ==> linesLeft >= 0
        invariant lines <= 0 ==> linesLeft == lines
        invariant total == next + (if linesLeft > 0 then DivideAndRoundUp(linesLeft, IMCU) else 0)
        invariant start <= next <= available
      {
        UpStep(linesLeft);
        ghost var k := next;
        ok := DecodeImcuRow();
        if !ok {
          return false, m, mc;
        }
        HandChunk(dest, IMCU, s, full, fullC, top, m, mc, k, 0);
        m := m + IMCU;
        mc := mc + 8;
        linesLeft := linesLeft - IMCU;
      }
      ok := true;
      if linesLeft > 0 {
        // The last lines of the crop, from the top of one more iMCU row.
        DivideUpIs(linesLeft, IMCU, 1);
        ghost var k := next;
        ok := DecodeImcuRow();
        if !ok {
          return false, m, mc;
        }
        HandChunk(dest, linesLeft, s, full, fullC, top, m, mc, k, 0);
        m := m + linesLeft;
        mc := mc + Half(linesLeft);
      }
    }

    lemma UpStep(lines: int)
      requires IMCU <= lines
      ensures DivideAndRoundUp(lines, IMCU)
        == 1 + (if lines - IMCU > 0 then DivideAndRoundUp(lines - IMCU, IMCU) else 0)
      ensures lines - IMCU > 0 ==> DivideAndRoundUp(lines - IMCU, IMCU) >= 1
    {
    }

    lemma NothingHanded(s: Snapshot, dest: I420Buffers, full: int, fullC: int, top: int)
      requires s == dest.Snap() && RoomFor(s, dest, full, fullC)
      ensures Handed(s, dest, top, 0, 0)
    {
    }

    /** The rows that the destination must have room for: luma and chroma. */
    function FullRows(dstHeight: int): int {
      if dstHeight <= height then Delivered(height, dstHeight, IMCU) else 0
    }

    function FullChroma(dstHeight: int): int {
      if dstHeight > height then 0
      else if asserts then Half(Delivered(height, dstHeight, IMCU))
      else ChromaDelivered(height, dstHeight)
    }

    /** What the part of the first iMCU row and the lines after it come to. */
    lemma RowsAddUp(dstHeight: int)
      requires dstHeight <= height
      ensures var s, rest := PartialSkip(height, dstHeight, IMCU), Rest(height, dstHeight, IMCU);
        && FullRows(dstHeight) == Delivered(height, dstHeight, IMCU) == (if s > 0 then IMCU - s else 0) + Wanted(rest)
        && (!asserts || s % 2 == 0 ==> FullChroma(dstHeight) == ChromaDelivered(height, dstHeight)
                                    == (if s > 0 then Half(IMCU - s) else 0) + Half(Wanted(rest)))
    {
      ChromaRows(height, dstHeight);
    }

    /** Decodes the crop into dest.  Whatever happens, dest has received some number n of luma rows and c
        rows of each chroma plane, and its cursor stands behind them. */
    method DecodeToCallback(dest: I420Buffers, dstWidth: int, dstHeight: int)
      returns (outcome: Outcome, ghost n: int, ghost c: int)
      requires Valid() && dest.w == dstWidth && Foreign(dest)
      requires RoomFor(dest.Snap(), dest, FullRows(dstHeight), FullChroma(dstHeight))
      modifies this, yBuf, uBuf, vBuf, dest, dest.yMem, dest.uMem, dest.vMem
      ensures outcome == Success <==> CanDecode(dstWidth, dstHeight)
      ensures dstHeight <= height ==> 0 <= height - dstHeight - 2 * Skip(height, dstHeight) <= 1
      ensures outcome == Aborted ==> asserts && PartialSkip(height, dstHeight, IMCU) % 2 != 0
      ensures outcome != Aborted ==> Valid()
      ensures Handed(old(dest.Snap()), dest, Skip(height, dstHeight), n, c)
      ensures outcome == Success ==> n == Delivered(height, dstHeight, IMCU) && c == ChromaDelivered(height, dstHeight)
      ensures outcome == Failure ==> (n == 0 && c == 0) || AtImcuRow(available, Skip(height, dstHeight), n, c)
    {
      hide DivideAndRoundUp, Handed, Loaded, RoomFor, YStride, CStride, Shape, FullRows, FullChroma, ChromaDelivered;
      hide Delivered;
      ghost var s, full, fullC, top := dest.Snap(), FullRows(dstHeight), FullChroma(dstHeight), Skip(height, dstHeight);
      NothingHanded(s, dest, full, fullC, top);
      n, c := 0, 0;
      if dstWidth != width || dstHeight > height {
        return Failure, n, c;
      }
      RowsAddUp(dstHeight);
      var ok := StartDecode();
      if !ok {
        return Failure, n, c;
      }
      var linesLeft, skip := dstHeight, 0;
      ok, skip := SkipImcuRows(dstHeight);
      if !ok {
        return Failure, n, c;
      }
      ghost var k := next;
      if skip > 0 {
        // The crop begins inside the next iMCU row.
        NeededAfterSkip(height, dstHeight, IMCU);
        ok := DecodeImcuRow();
        if !ok {
          return Failure, n, c;
        }
        var aligned := HandAfterSkip(dest, skip, s, full, fullC, top, k);
        if !aligned {
          return Aborted, n, c;
        }
        n, c := IMCU - skip, Half(IMCU - skip);
        linesLeft := linesLeft - (IMCU - skip);
      }
      ok, n, c := HandRest(dest, linesLeft, s, full, fullC, top, n, c);
      outcome := if ok then Success else Failure;
    }
  }

  /** Chroma rows delivered of a 4:2:0 frame. */
  function ChromaDelivered(height: int, dstHeight: int): int {
    ComponentDelivered(height, dstHeight, IMCU, 2)
  }

  /** Without assertions, one chroma row too many is delivered exactly if the crop begins on an odd line
      and an even number of luma rows is delivered. */
  lemma ChromaRows(height: int, dstHeight: int)
    ensures ChromaDelivered(height, dstHeight) == Half(Delivered(height, dstHeight, IMCU)) +
      (if PartialSkip(height, dstHeight, IMCU) % 2 != 0 && Delivered(height, dstHeight, IMCU) % 2 == 0 then 1 else 0)
  {
  }

  lemma ChunkInside(k: int, available: int, size: int)
    requires 0 <= k < available && 0 <= size
    ensures 0 <= k * size && k * size + size <= available * size
  {
    NextIndex(k, size);
    MulMonotone(k + 1, available, size);
  }
}
