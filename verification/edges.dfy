/** Images whose pixels are computed from a clamped neighbourhood of the source. */
module Edges {
  import opened Views

  /** The nearest index inside 0 .. n. */
  function Clamp(k: int, n: int): int {
    if k < 0 then 0 else if k >= n then n - 1 else k
  }

  /** No index inside is nearer. */
  lemma ClampNearest(k: int, n: int, j: int)
    requires 0 <= j < n
    ensures 0 <= Clamp(k, n) < n
    ensures (if k < Clamp(k, n) then Clamp(k, n) - k else k - Clamp(k, n)) <= (if k < j then j - k else k - j)
  {
  }

  /** Clamping looks the same from the other end. */
  lemma ClampReversed(k: int, n: int)
    requires 0 < n
    ensures Clamp(n - 1 - k, n) == n - 1 - Clamp(k, n)
  {
  }

  /** Rectangle dv of memory `after` holds the image f; nothing else has changed. */
  ghost predicate Made<T>(before: seq<T>, after: seq<T>, dv: View, w: int, h: int, f: (int, int) -> T) {
    && InBounds(dv, w, h, |before|)
    && OnlyChanged(before, after, dv, w, h)
    && forall x, y | 0 <= x < w && 0 <= y < h :: after[dv.At(x, y)] == f(x, y)
  }

  lemma NothingMade<T>(m: seq<T>, dv: View, w: int, f: (int, int) -> T)
    ensures Made(m, m, dv, w, 0, f)
  {
  }

  /** One more row of adjacent cells, at address dp. */
  lemma MadeRow<T>(m0: seq<T>, m1: seq<T>, m2: seq<T>, d: int, stride: int, dp: int, w: int, y: int, h: int,
                   f: (int, int) -> T)
    requires 0 <= y < h && 0 < w && Distinct(Plane(d, stride), w, h) && InBounds(Plane(d, stride), w, h, |m0|)
    requires Made(m0, m1, Plane(d, stride), w, y, f)
    requires dp == d + y * stride && |m2| == |m1|
    requires forall k | 0 <= k < |m1| && !(dp <= k < dp + w) :: m2[k] == m1[k]
    requires forall k | dp <= k < dp + w :: 0 <= k < |m2| && m2[k] == f(k - dp, y)
    ensures Made(m0, m2, Plane(d, stride), w, y + 1, f)
  {
    var dv := Plane(d, stride);
    hide View.At, Distinct, InBounds, OnlyChanged;
    PlaneRow(d, stride, w, h, |m0|, y);
    EarlierBounds(dv, w, y + 1, h, |m0|);
    RowOnlyChanged(m1, m2, dp, stride, w);
    PlaneDown(d, stride, y);
    OnlyChangedWider(m0, m1, dv, w, y, w, y + 1);
    OnlyChangedPart(m0, m1, m2, dv, w, y + 1, 0, y, w, 1);
    forall x, z | 0 <= x < w && 0 <= z < y + 1 ensures 0 <= dv.At(x, z) < |m2| && m2[dv.At(x, z)] == f(x, z) {
      PlaneRow(d, stride, w, h, |m0|, z);
      if z < y {
        PlaneRowsApart(d, stride, w, h, y, z);
        assert m1[dv.At(x, z)] == f(x, z);
      } else {
        assert m2[dp + x] == f(dp + x - dp, y);
      }
    }
  }
}
