/** convert_jpeg.cc and mjpeg_decoder.cc: what a whole cropped decode leaves behind, and how the two
    decode calls compare. */
module MjpegCrop {
  import opened MjpegI420
  import opened MjpegRows
  import opened Planar
  import opened Views

  // ----- MJPGToI420 of a 4:2:0 frame

  /** What is left of the partly skipped iMCU row is no more than the crop. */
  predicate FirstChunkFits(height: int, dstHeight: int) {
    var s := PartialSkip(height, dstHeight, IMCU);
    (if s > 0 then IMCU - s else 0) <= dstHeight
  }

  /** In builds without assertions: the crop begins on an odd line and an even number of rows is delivered. */
  predicate ChromaRowMore(height: int, dstHeight: int) {
    PartialSkip(height, dstHeight, IMCU) % 2 != 0 && Delivered(height, dstHeight, IMCU) % 2 == 0
  }

  /** The destination is one copy of decoded luma rows top .. top + n and of c rows of each chroma plane. */
  ghost predicate OneCopy(d: I420Decoder, s: Snapshot, dest: I420Buffers, top: int, n: int, c: int)
    reads dest.yMem, dest.uMem, dest.vMem
  {
    && Copied(s.yMem, dest.yMem[..], Plane(s.y, dest.yStride), dest.w, n, d.yImage, Plane(0, d.YStride()).Shift(0, top))
    && Copied(s.uMem, dest.uMem[..], Plane(s.u, dest.uStride), Half(dest.w), c, d.uImage,
              Plane(0, d.CStride()).Shift(0, top / 2))
    && Copied(s.vMem, dest.vMem[..], Plane(s.v, dest.vStride), Half(dest.w), c, d.vImage,
              Plane(0, d.CStride()).Shift(0, top / 2))
  }

  lemma HandedIsOneCopy(d: I420Decoder, s: Snapshot, dest: I420Buffers, top: int, n: int, c: int)
    requires d.Handed(s, dest, top, n, c)
    ensures OneCopy(d, s, dest, top, n, c)
  {
    PlaneDown(0, d.YStride(), top);
    PlaneDown(0, d.CStride(), top / 2);
    hide View.At, View.Shift, Copied;
  }

  /** After a decode of a crop of dstHeight rows the cursor has no rows left, and the destination is
      one copy of the crop, if and only if the first chunk fits the crop.  Otherwise more rows than
      were asked for have been written, and the count of rows left is below zero.  The chroma is half
      the luma, or one row more. */
  lemma CropDelivered(d: I420Decoder, s: Snapshot, dest: I420Buffers, dstHeight: int, n: int, c: int)
    requires dstHeight <= d.height && s.h == dstHeight
    requires n == Delivered(d.height, dstHeight, IMCU) && c == ChromaDelivered(d.height, dstHeight)
    requires d.Handed(s, dest, Skip(d.height, dstHeight), n, c)
    ensures dest.h == 0 && OneCopy(d, s, dest, Skip(d.height, dstHeight), dstHeight, c)
      <==> FirstChunkFits(d.height, dstHeight)
    ensures !FirstChunkFits(d.height, dstHeight) ==>
      dest.h < 0 && dstHeight < n && OneCopy(d, s, dest, Skip(d.height, dstHeight), n, c)
    ensures c == Half(n) + if ChromaRowMore(d.height, dstHeight) then 1 else 0
  {
    HandedIsOneCopy(d, s, dest, Skip(d.height, dstHeight), n, c);
    DeliversCrop(d.height, dstHeight, IMCU);
    ChromaRows(d.height, dstHeight);
    hide OneCopy;
  }

  /** The 4:2:0 branch, on a frame that is loaded.  The cursor is handed back to show where it ends. */
  method MJPGToI420(d: I420Decoder, yMem: array<byte>, y: int, yStride: int, uMem: array<byte>, u: int, uStride: int,
                    vMem: array<byte>, v: int, vStride: int, srcWidth: int, srcHeight: int, dstWidth: int,
                    dstHeight: int)
    returns (outcome: Outcome, bufs: I420Buffers, ghost s: Snapshot, ghost c: int)
    requires d.Valid() && ImageRoom(d, yMem, y, yStride, uMem, u, uStride, vMem, v, vStride, dstWidth,
                                    d.FullRows(dstHeight), d.FullChroma(dstHeight))
    modifies d, d.yBuf, d.uBuf, d.vBuf, yMem, uMem, vMem
    ensures fresh(bufs) && bufs.yMem == yMem && bufs.uMem == uMem && bufs.vMem == vMem && bufs.w == dstWidth
    ensures bufs.yStride == yStride && bufs.uStride == uStride && bufs.vStride == vStride
    ensures s == Snapshot(old(yMem[..]), old(uMem[..]), old(vMem[..]), y, u, v, dstHeight)
    ensures outcome == Success <==> d.width == srcWidth && d.height == srcHeight && d.CanDecode(dstWidth, dstHeight)
    ensures outcome == Success <==> (
      && srcWidth == d.width == dstWidth && srcHeight == d.height && dstHeight <= d.height && d.starts
      && (d.asserts ==> Skip(d.height, dstHeight) % 2 == 0)
      && Skip(d.height, dstHeight) + Delivered(d.height, dstHeight, IMCU) <= IMCU * d.available)
    ensures dstHeight <= d.height ==> 0 <= d.height - dstHeight - 2 * Skip(d.height, dstHeight) <= 1
    ensures outcome == Success ==>
      (bufs.h == 0 && OneCopy(d, s, bufs, Skip(d.height, dstHeight), dstHeight, c)
       <==> FirstChunkFits(d.height, dstHeight))
    ensures outcome == Success && !FirstChunkFits(d.height, dstHeight) ==>
      bufs.h < 0 && OneCopy(d, s, bufs, Skip(d.height, dstHeight), Delivered(d.height, dstHeight, IMCU), c)
    ensures outcome == Success ==>
      c == Half(Delivered(d.height, dstHeight, IMCU)) + if ChromaRowMore(d.height, dstHeight) then 1 else 0
    ensures d.width != srcWidth || d.height != srcHeight ==>
      yMem[..] == old(yMem[..]) && uMem[..] == old(uMem[..]) && vMem[..] == old(vMem[..])
  {
    hide OneCopy, I420Decoder.Handed, I420Decoder.Shape, I420Decoder.YStride, I420Decoder.CStride, InBounds, Distinct;
    hide I420Decoder.FullRows, I420Decoder.FullChroma, ChromaDelivered, Delivered;
    bufs := new I420Buffers(yMem, y, yStride, uMem, u, uStride, vMem, v, vStride, dstWidth, dstHeight);
    s, c := bufs.Snap(), 0;
    d.DecodesWhen(dstWidth, dstHeight);
    hide I420Decoder.CanDecode;
    if d.width != srcWidth || d.height != srcHeight {
      outcome := Failure;
      return;
    }
    ghost var n;
    outcome, n, c := d.DecodeToCallback(bufs, dstWidth, dstHeight);
    if outcome == Success {
      CropDelivered(d, s, bufs, dstHeight, n, c);
    }
  }

  /** Room for `full` luma and fullC chroma rows in three buffers that are neither each other's nor the decoder's. */
  ghost predicate ImageRoom(d: I420Decoder, yMem: array<byte>, y: int, yStride: int, uMem: array<byte>, u: int,
                            uStride: int,
                            vMem: array<byte>, v: int, vStride: int, w: int, full: int, fullC: int) {
    && yMem != uMem && yMem != vMem && uMem != vMem
    && {yMem, uMem, vMem} !! {d.yBuf, d.uBuf, d.vBuf}
    && InBounds(Plane(y, yStride), w, full, yMem.Length) && Distinct(Plane(y, yStride), w, full)
    && InBounds(Plane(u, uStride), Half(w), fullC, uMem.Length) && Distinct(Plane(u, uStride), Half(w), fullC)
    && InBounds(Plane(v, vStride), Half(w), fullC, vMem.Length) && Distinct(Plane(v, vStride), Half(w), fullC)
  }

  // ----- a crop that gets more than it asked for

  lemma FourOfTwenty()
    ensures Skip(20, 4) == 8 && PartialSkip(20, 4, IMCU) == 8 && !FirstChunkFits(20, 4)
    ensures Delivered(20, 4, IMCU) == 8 && ChromaDelivered(20, 4) == 4 && Needed(20, 4, IMCU) == 1
  {
  }

  /** A frame of 16 by 20 pixels, cropped to its middle four rows: the decode succeeds and delivers
      eight. */
  method FourRowsWanted() returns (outcome: Outcome, left: int)
    ensures outcome == Success && left == -4
  {
    FourOfTwenty();
    GridFits(16, 8);
    GridFits(8, 4);
    var d := new I420Decoder(16, 20, seq(512, _ => 0), seq(128, _ => 0), seq(128, _ => 0), true, 2, true);
    hide PartialSkip, Delivered, ChromaDelivered, Needed, InBounds, Distinct;
    var y := new byte[128];
    var u := new byte[32];
    var v := new byte[32];
    var bufs := new I420Buffers(y, 0, 16, u, 0, 8, v, 0, 8, 16, 4);
    ghost var n, c;
    outcome, n, c := d.DecodeToCallback(bufs, 16, 4);
    left := bufs.h;
  }

  lemma SixteenOfEighteen()
    ensures Skip(18, 16) == 1 && PartialSkip(18, 16, IMCU) == 1 && FirstChunkFits(18, 16) && ChromaRowMore(18, 16)
    ensures Delivered(18, 16, IMCU) == 16 && ChromaDelivered(18, 16) == 9 && Needed(18, 16, IMCU) == 2
  {
  }

  /** A frame of 16 by 18 pixels, cropped to 16 rows in a build without assertions: the decode succeeds,
      leaves no rows, and writes a ninth chroma row behind the eight of the image. */
  method NinthChromaRow(value: byte) returns (outcome: Outcome, left: int, behind: byte)
    ensures outcome == Success && left == 0 && behind == value
  {
    SixteenOfEighteen();
    GridFits(16, 16);
    GridFits(8, 9);
    var d := new I420Decoder(16, 18, seq(512, _ => 0), seq(128, _ => value), seq(128, _ => 0), true, 2, false);
    hide PartialSkip, Delivered, ChromaDelivered, Needed, InBounds, Distinct;
    var y := new byte[256];
    var u := new byte[72];
    var v := new byte[72];
    var bufs := new I420Buffers(y, 0, 16, u, 0, 8, v, 0, 8, 16, 16);
    ghost var n, c, s := 0, 0, bufs.Snap();
    outcome, n, c := d.DecodeToCallback(bufs, 16, 16);
    left := bufs.h;
    behind := u[64];
    NinthRow(s.uMem, u[..], d.uImage, value);
  }

  lemma NinthRow(before: seq<byte>, after: seq<byte>, image: seq<byte>, value: byte)
    requires PlaneDone(before, after, 0, 8, 8, 9, image, 8, 0) && |after| == 72
    requires forall k | 0 <= k < |image| :: image[k] == value
    ensures after[64] == value
  {
    assert Plane(0, 8).At(0, 8) == 64;
  }

  // ----- the two decode calls

  /** A 4:2:0 frame behind both: three components, sampled 2, 1, 1 down the image. */
  ghost predicate SameFrame<Row>(b: MJpegDecoder<Row>, c: I420Decoder) {
    && b.Shape() && b.maxVSampFactor == 2 && b.vSampFactor == [2, 1, 1]
    && b.width == c.width && b.height == c.height && b.starts == c.starts && b.available == c.available
    && b.asserts == c.asserts
  }

  /** The loop that stops before the last whole iMCU row and the loop that does not succeed on the
      same crops. */
  lemma SucceedTogether<Row>(b: MJpegDecoder<Row>, c: I420Decoder, dstWidth: int, dstHeight: int)
    requires SameFrame(b, c)
    ensures b.CanDecode(dstWidth, dstHeight) <==> c.CanDecode(dstWidth, dstHeight)
  {
    hide PartialSkip, Needed;
    var s := PartialSkip(c.height, dstHeight, IMCU);
    assert b.GetImageScanlinesPerImcuRow() == IMCU;
    assert b.GetVertSubSampFactor(0) == 1 && b.GetVertSubSampFactor(1) == 2 && b.GetVertSubSampFactor(2) == 2;
    assert b.Aligned(s) <==> s % 2 == 0;
  }

  /** The rows of a component, w bytes each, as they lie in its padded plane. */
  ghost predicate RowsOf(rows: seq<seq<byte>>, plane: seq<byte>, stride: int, w: int) {
    forall r, x | 0 <= r < |rows| && 0 <= x < w ::
      |rows[r]| == w && 0 <= Plane(0, stride).At(x, r) < |plane| && rows[r][x] == plane[Plane(0, stride).At(x, r)]
  }

  /** Rows first .. first + n of a component, appended to a list and copied to memory. */
  ghost predicate SamePlane(before: seq<seq<byte>>, after: seq<seq<byte>>, m: seq<byte>, v: View, w: int, n: int) {
    && |after| == |before| + n
    && forall x, j | 0 <= x < w && 0 <= j < n ::
      && |after[|before| + j]| == w && 0 <= v.At(x, j) < |m| && after[|before| + j][x] == m[v.At(x, j)]
  }

  lemma PlanesAgree(rows: seq<seq<byte>>, plane: seq<byte>, stride: int, before: seq<seq<byte>>, after: seq<seq<byte>>,
                    m0: seq<byte>, m: seq<byte>, off: int, outStride: int, w: int, first: int, n: int)
    requires RowsOf(rows, plane, stride, w) && 0 <= first && 0 <= n && first + n <= |rows|
    requires after == before + rows[first..first + n]
    requires PlaneDone(m0, m, off, outStride, w, n, plane, stride, first)
    ensures SamePlane(before, after, m, Plane(off, outStride), w, n)
  {
    hide View.At, InBounds;
    CellsInside(m0, m, Plane(off, outStride), w, n, plane, Plane(first * stride, stride));
    forall x, j | 0 <= x < w && 0 <= j < n
      ensures |after[|before| + j]| == w && after[|before| + j][x] == m[Plane(off, outStride).At(x, j)]
    {
      assert after[|before| + j] == rows[first + j];
      RowFurtherDown(stride, first, x, j);
      assert |rows[first + j]| == w && rows[first + j][x] == plane[Plane(0, stride).At(x, first + j)];
    }
  }

  lemma CellsInside(m0: seq<byte>, m: seq<byte>, v: View, w: int, n: int, src: seq<byte>, sv: View)
    requires Copied(m0, m, v, w, n, src, sv)
    ensures forall x, j | 0 <= x < w && 0 <= j < n ::
      0 <= v.At(x, j) < |m| && 0 <= sv.At(x, j) < |src| && m[v.At(x, j)] == src[sv.At(x, j)]
  {
    hide View.At;
  }

  lemma RowFurtherDown(stride: int, first: int, x: int, j: int)
    ensures Plane(0, stride).At(x, first + j) == Plane(first * stride, stride).At(x, j)
  {
    assert (first + j) * stride == first * stride + j * stride;
  }

  /** What one call appends to its lists of rows and the other copies to memory is the same in every
      component: luma row by row, chroma at half the height. */
  lemma SameRows(b: MJpegDecoder<seq<byte>>, c: I420Decoder, planes: seq<seq<seq<byte>>>, out: seq<seq<seq<byte>>>,
                 s: Snapshot, dest: I420Buffers, dstHeight: int, n: int, nc: int)
    requires SameFrame(b, c) && 0 <= n && 0 <= nc && dest.w == c.width
    requires RowsOf(b.image[0], c.yImage, c.YStride(), c.width)
    requires RowsOf(b.image[1], c.uImage, c.CStride(), Half(c.width))
    requires RowsOf(b.image[2], c.vImage, c.CStride(), Half(c.width))
    requires b.Complete(planes, out, dstHeight)
    requires n == Delivered(c.height, dstHeight, IMCU) && nc == ChromaDelivered(c.height, dstHeight)
    requires c.Handed(s, dest, Skip(c.height, dstHeight), n, nc)
    ensures SamePlane(planes[0], out[0], dest.yMem[..], Plane(s.y, dest.yStride), c.width, n)
    ensures SamePlane(planes[1], out[1], dest.uMem[..], Plane(s.u, dest.uStride), Half(c.width), nc)
    ensures SamePlane(planes[2], out[2], dest.vMem[..], Plane(s.v, dest.vStride), Half(c.width), nc)
  {
    var top := Skip(c.height, dstHeight);
    ComponentsAppended(b, planes, out, dstHeight);
    hide RowsOf, SamePlane, PlaneDone, Delivered, ChromaDelivered, Skip, I420Decoder.YStride, I420Decoder.CStride;
    hide MJpegDecoder.Complete;
    PlanesAgree(b.image[0], c.yImage, c.YStride(), planes[0], out[0], s.yMem, dest.yMem[..], s.y, dest.yStride, c.width,
                top, n);
    PlanesAgree(b.image[1], c.uImage, c.CStride(), planes[1], out[1], s.uMem, dest.uMem[..], s.u, dest.uStride,
                Half(c.width), top / 2, nc);
    PlanesAgree(b.image[2], c.vImage, c.CStride(), planes[2], out[2], s.vMem, dest.vMem[..], s.v, dest.vStride,
                Half(c.width), top / 2, nc);
  }

  /** What the lists have received of the luma and of the two chroma components. */
  lemma ComponentsAppended<Row>(b: MJpegDecoder<Row>, planes: seq<seq<Row>>, out: seq<seq<Row>>, dstHeight: int)
    requires b.Shape() && b.maxVSampFactor == 2 && b.vSampFactor == [2, 1, 1] && b.Complete(planes, out, dstHeight)
    ensures |out| == |planes| == 3
    ensures var top, n, c :=
      Skip(b.height, dstHeight), Delivered(b.height, dstHeight, IMCU), ChromaDelivered(b.height, dstHeight);
      && 0 <= top && 0 <= n && top + n <= |b.image[0]| && out[0] == planes[0] + b.image[0][top..top + n]
      && 0 <= top / 2 && 0 <= c && top / 2 + c <= |b.image[1]| && out[1] == planes[1] + b.image[1][top / 2..top / 2 + c]
      && top / 2 + c <= |b.image[2]| && out[2] == planes[2] + b.image[2][top / 2..top / 2 + c]
  {
    assert b.GetImageScanlinesPerImcuRow() == IMCU;
    assert b.GetVertSubSampFactor(0) == 1 && b.GetVertSubSampFactor(1) == 2 && b.GetVertSubSampFactor(2) == 2;
    assert ComponentDelivered(b.height, dstHeight, IMCU, 1) == Delivered(b.height, dstHeight, IMCU);
    hide ComponentDelivered, Delivered, Skip;
    assert b.CompleteAt(0, planes[0], out[0], dstHeight);
    assert b.CompleteAt(1, planes[1], out[1], dstHeight);
    assert b.CompleteAt(2, planes[2], out[2], dstHeight);
  }

  /** Both calls on the same crop: they succeed together, and then have delivered the same rows. */
  method BothCalls(b: MJpegDecoder<seq<byte>>, c: I420Decoder, planes: seq<seq<seq<byte>>>, dest: I420Buffers,
                   dstWidth: int, dstHeight: int)
    returns (viaBuffers: Outcome, viaCallback: Outcome, out: seq<seq<seq<byte>>>)
    requires b.Valid() && c.Valid() && SameFrame(b, c) && |planes| == 3 && dest.w == dstWidth
    requires c.Foreign(dest) && c.RoomFor(dest.Snap(), dest, c.FullRows(dstHeight), c.FullChroma(dstHeight))
    requires RowsOf(b.image[0], c.yImage, c.YStride(), c.width)
    requires RowsOf(b.image[1], c.uImage, c.CStride(), Half(c.width))
    requires RowsOf(b.image[2], c.vImage, c.CStride(), Half(c.width))
    modifies b, c, c.yBuf, c.uBuf, c.vBuf, dest, dest.yMem, dest.uMem, dest.vMem
    ensures viaBuffers == Success <==> viaCallback == Success
    ensures viaBuffers == Success ==>
      var n, nc := Delivered(c.height, dstHeight, IMCU), ChromaDelivered(c.height, dstHeight);
      && |out| == 3
      && SamePlane(planes[0], out[0], dest.yMem[..], Plane(old(dest.y), dest.yStride), c.width, n)
      && SamePlane(planes[1], out[1], dest.uMem[..], Plane(old(dest.u), dest.uStride), Half(c.width), nc)
      && SamePlane(planes[2], out[2], dest.vMem[..], Plane(old(dest.v), dest.vStride), Half(c.width), nc)
  {
    hide RowsOf, SamePlane, I420Decoder.Handed, I420Decoder.RoomFor, MJpegDecoder.CanDecode, I420Decoder.CanDecode;
    hide Delivered, PartialSkip;
    hide ChromaDelivered, MJpegDecoder.AllWritten, MJpegDecoder.Complete;
    ghost var s, n, l, m, mc := dest.Snap(), 0, 0, 0, 0;
    SucceedTogether(b, c, dstWidth, dstHeight);
    assert b.GetImageScanlinesPerImcuRow() == IMCU;
    viaBuffers, out, n, l := b.DecodeToBuffers(planes, dstWidth, dstHeight);
    viaCallback, m, mc := c.DecodeToCallback(dest, dstWidth, dstHeight);
    if viaBuffers == Success {
      WidthFits(c, dstWidth, dstHeight);
      NotNegative(c.height, dstHeight);
      ComponentsAppended(b, planes, out, dstHeight);
      SameRows(b, c, planes, out, s, dest, dstHeight, m, mc);
    }
  }

  lemma WidthFits(c: I420Decoder, dstWidth: int, dstHeight: int)
    requires c.CanDecode(dstWidth, dstHeight)
    ensures dstWidth == c.width && dstHeight <= c.height
  {
  }

  lemma NotNegative(height: int, dstHeight: int)
    ensures 0 <= Delivered(height, dstHeight, IMCU) && 0 <= ChromaDelivered(height, dstHeight)
  {
  }
}
