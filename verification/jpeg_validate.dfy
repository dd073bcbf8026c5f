/** mjpeg_validate.cc: is the buffer a JPEG from its start marker to an end marker? */
module JpegValidate {
  import opened Views

  const MAX_JPEG_SIZE: int := 0x7fffffff
  const BACK_SEARCH_SIZE: int := 1024

  /** The end of image marker stands at i. */
  predicate EndMarker(m: seq<byte>, i: int) {
    0 <= i && i + 1 < |m| && m[i] == 0xff && m[i + 1] == 0xd9
  }

  /** It stands somewhere in the n bytes from p. */
  ghost predicate HasEnd(m: seq<byte>, p: int, n: int) {
    exists i | p <= i < p + n - 1 :: EndMarker(m, i)
  }

  lemma Spelled(m: seq<byte>, p: nat, n: int)
    requires p + n <= |m|
    ensures HasEnd(m, p, n) <==> exists i | p <= i < p + n - 1 :: m[i] == 0xff && m[i + 1] == 0xd9
  {
    if HasEnd(m, p, n) {
      var i :| p <= i < p + n - 1 && EndMarker(m, i);
      assert m[i] == 0xff;
    }
    if i :| p <= i < p + n - 1 && m[i] == 0xff && m[i + 1] == 0xd9 {
      assert EndMarker(m, i);
    }
  }

  /** The first of the n bytes from p that is b. */
  method Memchr(src: array<byte>, p: nat, b: byte, n: nat) returns (found: bool, at: nat)
    requires p + n <= src.Length
    ensures found ==> p <= at < p + n && src[at] == b && forall i | p <= i < at :: src[i] != b
    ensures !found ==> forall i | p <= i < p + n :: src[i] != b
  {
    at := p;
    while at < p + n
      invariant p <= at <= p + n && forall i | p <= i < at :: src[i] != b
    {
      if src[at] == b {
        return true, at;
      }
      at := at + 1;
    }
    found := false;
  }

  /** The last byte is never searched for the first half of the marker, so the byte after a hit
      is always inside. */
  method ScanEOI(src: array<byte>, p: nat, size: nat) returns (found: bool)
    requires p + size <= src.Length
    ensures found <==> HasEnd(src[..], p, size)
    ensures found <==> exists i | p <= i < p + size - 1 :: src[i] == 0xff && src[i + 1] == 0xd9
  {
    Spelled(src[..], p, size);
    if size >= 2 {
      var end := p + size - 1;
      var it := p;
      while it < end
        invariant p <= it <= end
        invariant forall i | p <= i < it :: !EndMarker(src[..], i)
      {
        var hit, at := Memchr(src, it, 0xff, end - it);
        if !hit {
          return false;
        }
        if src[at + 1] == 0xd9 {
          assert EndMarker(src[..], at);
          return true;
        }
        it := at + 1;
      }
    }
    found := false;
  }

  /** What a buffer must look like. */
  ghost predicate LooksIntact(m: seq<byte>) {
    && 64 <= |m| <= MAX_JPEG_SIZE
    && m[0] == 0xff && m[1] == 0xd8 && m[2] == 0xff
    && HasEnd(m, 2, |m| - 2)
  }

  /** The tail and the shortened rest overlap in one byte, so a marker across the cut is seen. */
  lemma TwoScans(m: seq<byte>)
    requires |m| > BACK_SEARCH_SIZE && m[1] != 0xff
    ensures HasEnd(m, 2, |m| - 2)
       <==> HasEnd(m, |m| - BACK_SEARCH_SIZE, BACK_SEARCH_SIZE) || HasEnd(m, 2, |m| - BACK_SEARCH_SIZE + 1 - 2)
  {
    if HasEnd(m, |m| - BACK_SEARCH_SIZE, BACK_SEARCH_SIZE) {
      var i :| |m| - BACK_SEARCH_SIZE <= i < |m| - 1 && EndMarker(m, i);
      assert i != 1;
      assert 2 <= i < 2 + (|m| - 2) - 1;
    }
    if HasEnd(m, 2, |m| - 2) {
      var i :| 2 <= i < 2 + (|m| - 2) - 1 && EndMarker(m, i);
      assert i >= |m| - BACK_SEARCH_SIZE || i < 2 + (|m| - BACK_SEARCH_SIZE + 1 - 2) - 1;
    }
  }

  /** Most images end in their last kilobyte, so that is searched first. */
  method ValidateJpeg(src: array?<byte>, size: nat) returns (valid: bool)
    requires src != null && size <= MAX_JPEG_SIZE ==> size <= src.Length
    ensures valid <==> src != null && size <= MAX_JPEG_SIZE && LooksIntact(src[..size])
    ensures valid <==> (
      && src != null && 64 <= size <= 0x7fffffff && src[0] == 0xff && src[1] == 0xd8 && src[2] == 0xff
      && exists i | 2 <= i < size - 1 :: src[i] == 0xff && src[i + 1] == 0xd9)
  {
    if size < 64 || size > MAX_JPEG_SIZE || src == null {
      return false;
    }
    if src[0] != 0xff || src[1] != 0xd8 || src[2] != 0xff {
      return false;
    }
    var rest := size;
    if size > BACK_SEARCH_SIZE {
      TwoScans(src[..size]);
      SameMarkers(src[..], size, size - BACK_SEARCH_SIZE, BACK_SEARCH_SIZE);
      var inTail := ScanEOI(src, size - BACK_SEARCH_SIZE, BACK_SEARCH_SIZE);
      if inTail {
        return true;
      }
      rest := size - BACK_SEARCH_SIZE + 1;
    }
    SameMarkers(src[..], size, 2, rest - 2);
    valid := ScanEOI(src, 2, rest - 2);
  }

  lemma SameMarkers(m: seq<byte>, size: nat, p: nat, n: int)
    requires size <= |m| && p + n <= size
    ensures HasEnd(m, p, n) <==> HasEnd(m[..size], p, n)
  {
    forall i | p <= i < p + n - 1 ensures EndMarker(m, i) <==> EndMarker(m[..size], i) {
    }
  }

  /** Anything may follow a valid image, up to the size limit. */
  lemma TrailingBytes(m: seq<byte>, t: seq<byte>)
    requires LooksIntact(m) && |m + t| <= MAX_JPEG_SIZE
    ensures LooksIntact(m + t)
  {
    var i :| 2 <= i < 2 + (|m| - 2) - 1 && EndMarker(m, i);
    assert EndMarker(m + t, i);
  }

  /** Cutting a valid image short leaves it valid exactly when an end marker survives the cut. */
  lemma Truncated(m: seq<byte>, n: nat)
    requires LooksIntact(m) && 64 <= n <= |m|
    ensures LooksIntact(m[..n]) <==> HasEnd(m, 2, n - 2)
  {
    SameMarkers(m, n, 2, n - 2);
  }
}
