/** The row kernels of row_common.cc that move whole pixels. */
module Rows {

  /** CopyRow_C, a memcpy. */
  method CopyRow<T>(src: array<T>, s: int, dst: array<T>, d: int, width: int)
    requires src != dst && 0 <= width
    requires 0 < width ==> 0 <= s && s + width <= src.Length && 0 <= d && d + width <= dst.Length
    modifies dst
    ensures forall k | d <= k < d + width :: dst[k] == src[k - d + s]
    ensures forall k | 0 <= k < dst.Length && !(d <= k < d + width) :: dst[k] == old(dst[k])
  {
    forall x | 0 <= x < width {
      dst[d + x] := src[s + x];
    }
  }

  /** MirrorRow_C and, on whole pixels, ARGBMirrorRow_C.  When the two rows overlap the bytes
      written are unspecified, but still only the destination row is written. */
  method MirrorRow<T>(src: array<T>, s: int, dst: array<T>, d: int, width: int)
    requires 0 <= width
    requires 0 < width ==> 0 <= s && s + width <= src.Length && 0 <= d && d + width <= dst.Length
    modifies dst
    ensures forall k | 0 <= k < dst.Length && !(d <= k < d + width) :: dst[k] == old(dst[k])
    ensures src != dst || s + width <= d || d + width <= s ==>
      forall k | d <= k < d + width :: dst[k] == old(src[s + width - 1 - (k - d)])
  {
    ghost var apart := src != dst || s + width <= d || d + width <= s;
    var sp := s + width - 1;
    var x := 0;
    while x < width - 1
      invariant 0 <= x <= width && x % 2 == 0 && sp == s + width - 1 - x
      invariant forall k | 0 <= k < dst.Length && !(d <= k < d + width) :: dst[k] == old(dst[k])
      invariant apart ==> forall k | s <= k < s + width :: src[k] == old(src[k])
      invariant apart ==> forall k | d <= k < d + x :: dst[k] == old(src[s + width - 1 - (k - d)])
    {
      dst[d + x] := src[sp];
      dst[d + x + 1] := src[sp - 1];
      sp := sp - 2;
      x := x + 2;
    }
    if width % 2 == 1 {
      dst[d + width - 1] := src[sp];
    }
  }

  /** SplitUVRow_C. */
  method SplitUVRow<T>(src: array<T>, s: int, dstU: array<T>, u: int, dstV: array<T>, v: int, width: int)
    requires src != dstU && src != dstV && dstU != dstV && 0 <= width
    requires 0 < width ==> 0 <= s && s + 2 * width <= src.Length
    requires 0 < width ==> 0 <= u && u + width <= dstU.Length && 0 <= v && v + width <= dstV.Length
    modifies dstU, dstV
    ensures forall k | u <= k < u + width :: dstU[k] == src[s + 2 * (k - u)]
    ensures forall k | v <= k < v + width :: dstV[k] == src[s + 2 * (k - v) + 1]
    ensures forall k | 0 <= k < dstU.Length && !(u <= k < u + width) :: dstU[k] == old(dstU[k])
    ensures forall k | 0 <= k < dstV.Length && !(v <= k < v + width) :: dstV[k] == old(dstV[k])
  {
    var sp, x := s, 0;
    while x < width - 1
      invariant 0 <= x <= width && x % 2 == 0 && sp == s + 2 * x
      invariant forall k | u <= k < u + x :: dstU[k] == src[s + 2 * (k - u)]
      invariant forall k | v <= k < v + x :: dstV[k] == src[s + 2 * (k - v) + 1]
      invariant forall k | 0 <= k < dstU.Length && !(u <= k < u + width) :: dstU[k] == old(dstU[k])
      invariant forall k | 0 <= k < dstV.Length && !(v <= k < v + width) :: dstV[k] == old(dstV[k])
    {
      dstU[u + x] := src[sp];
      dstU[u + x + 1] := src[sp + 2];
      dstV[v + x] := src[sp + 1];
      dstV[v + x + 1] := src[sp + 3];
      sp := sp + 4;
      x := x + 2;
    }
    if width % 2 == 1 {
      dstU[u + width - 1] := src[sp];
      dstV[v + width - 1] := src[sp + 1];
    }
  }

  /** MirrorSplitUVRow_C. */
  method MirrorSplitUVRow<T>(src: array<T>, s: int, dstU: array<T>, u: int, dstV: array<T>, v: int, width: int)
    requires src != dstU && src != dstV && dstU != dstV && 0 <= width
    requires 0 < width ==> 0 <= s && s + 2 * width <= src.Length
    requires 0 < width ==> 0 <= u && u + width <= dstU.Length && 0 <= v && v + width <= dstV.Length
    modifies dstU, dstV
    ensures forall k | u <= k < u + width :: dstU[k] == src[s + 2 * (width - 1 - (k - u))]
    ensures forall k | v <= k < v + width :: dstV[k] == src[s + 2 * (width - 1 - (k - v)) + 1]
    ensures forall k | 0 <= k < dstU.Length && !(u <= k < u + width) :: dstU[k] == old(dstU[k])
    ensures forall k | 0 <= k < dstV.Length && !(v <= k < v + width) :: dstV[k] == old(dstV[k])
  {
    var sp, x := s + 2 * (width - 1), 0;
    while x < width - 1
      invariant 0 <= x <= width && x % 2 == 0 && sp == s + 2 * (width - 1 - x)
      invariant forall k | u <= k < u + x :: dstU[k] == src[s + 2 * (width - 1 - (k - u))]
      invariant forall k | v <= k < v + x :: dstV[k] == src[s + 2 * (width - 1 - (k - v)) + 1]
      invariant forall k | 0 <= k < dstU.Length && !(u <= k < u + width) :: dstU[k] == old(dstU[k])
      invariant forall k | 0 <= k < dstV.Length && !(v <= k < v + width) :: dstV[k] == old(dstV[k])
    {
      dstU[u + x] := src[sp];
      dstU[u + x + 1] := src[sp - 2];
      dstV[v + x] := src[sp + 1];
      dstV[v + x + 1] := src[sp - 2 + 1];
      sp := sp - 4;
      x := x + 2;
    }
    if width % 2 == 1 {
      dstU[u + width - 1] := src[sp];
      dstV[v + width - 1] := src[sp + 1];
    }
  }
}
