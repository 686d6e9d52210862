/** Pixel grids, line segments and the Python slice semantics the detector relies on. */
module Images {

  /** One 8-bit grayscale intensity. */
  type Pixel = v: int | 0 <= v < 256

  /** A grayscale image, row by row (a numpy array of shape rows x cols). */
  type Grid = seq<seq<Pixel>>

  /** Every row has the same length, as in any numpy array. */
  predicate Rectangular(g: Grid) {
    forall i :: 0 <= i < |g| ==> |g[i]| == |g[0]|
  }

  /** Number of columns; a grid without rows is taken to have none. */
  function Width(g: Grid): nat {
    if |g| == 0 then 0 else |g[0]|
  }

  /** A probabilistic Hough segment from (x1, y1) to (x2, y2), in pixel coordinates. */
  datatype Segment = Segment(x1: int, y1: int, x2: int, y2: int)

  function Abs(x: int): nat {
    if x < 0 then -x else x
  }

  function Min(a: int, b: int): int {
    if a <= b then a else b
  }

  /**
   * Python's normalisation of one bound of a slice `s[start:stop]` over a
   * sequence of length n: a negative bound counts from the end, and the
   * result is clamped into 0..n.
   */
  function SliceIndex(i: int, n: nat): (k: nat)
    ensures k <= n
    ensures 0 <= i <= n ==> k == i
    ensures i < 0 && 0 <= n + i ==> k == n + i
  {
    if i < 0 then (if n + i < 0 then 0 else n + i)
    else if i > n then n
    else i
  }

  /** Number of elements `s[start:stop]` has when |s| == n. */
  function SliceLength(start: int, stop: int, n: nat): (len: nat)
    ensures len <= n
  {
    var lo, hi := SliceIndex(start, n), SliceIndex(stop, n);
    if lo <= hi then hi - lo else 0
  }

  /** Python's `s[start:stop]`. */
  function Slice<T>(s: seq<T>, start: int, stop: int): (r: seq<T>)
    ensures |r| == SliceLength(start, stop, |s|)
    ensures forall k :: 0 <= k < |r| ==> r[k] == s[SliceIndex(start, |s|) + k]
  {
    var lo, hi := SliceIndex(start, |s|), SliceIndex(stop, |s|);
    if lo <= hi then s[lo..hi] else []
  }

  /** For bounds already inside the sequence, a slice is the plain subsequence. */
  lemma SliceInBounds<T>(s: seq<T>, start: int, stop: int)
    requires 0 <= start <= stop <= |s|
    ensures Slice(s, start, stop) == s[start..stop]
    ensures SliceLength(start, stop, |s|) == stop - start
  {
  }

  /** numpy's `g[r0:r1, c0:c1]` on a rectangular grid. */
  function Crop(g: Grid, r0: int, r1: int, c0: int, c1: int): (r: Grid)
    requires Rectangular(g)
    ensures Rectangular(r)
    ensures |r| == SliceLength(r0, r1, |g|)
    ensures |r| > 0 ==> Width(r) == SliceLength(c0, c1, Width(g))
    ensures forall i, j :: 0 <= i < |r| && 0 <= j < |r[i]| ==>
      r[i][j] == g[SliceIndex(r0, |g|) + i][SliceIndex(c0, Width(g)) + j]
  {
    var rows := Slice(g, r0, r1);
    seq(|rows|, i requires 0 <= i < |rows| => Slice(rows[i], c0, c1))
  }
}
