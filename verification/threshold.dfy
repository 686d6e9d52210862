/**
 * `binarize` (guitarFunctions.py) as the in-place update of a pixel buffer it
 * is, and OpenCV's `countNonZero` over such a buffer.
 */
module Threshold {
  import opened Images

  /** What `binarize(image, t)` leaves in a cell that held v. */
  function Level(v: Pixel, t: int): (r: Pixel)
    ensures r == 0 || r == 255
    ensures r == 255 <==> v > t
  {
    if v > t then 255 else 0
  }

  /** Replaces every cell a[i, j] by f(a[i, j]): one masked numpy assignment. */
  method MapCells(a: array2<Pixel>, f: Pixel -> Pixel)
    modifies a
    ensures forall i, j :: 0 <= i < a.Length0 && 0 <= j < a.Length1 ==> a[i, j] == f(old(a[i, j]))
  {
    var i := 0;
    while i < a.Length0
      invariant 0 <= i <= a.Length0
      invariant forall p, q :: 0 <= p < i && 0 <= q < a.Length1 ==> a[p, q] == f(old(a[p, q]))
      invariant forall p, q :: i <= p < a.Length0 && 0 <= q < a.Length1 ==> a[p, q] == old(a[p, q])
    {
      var j := 0;
      while j < a.Length1
        invariant 0 <= j <= a.Length1
        invariant forall p, q :: 0 <= p < i && 0 <= q < a.Length1 ==> a[p, q] == f(old(a[p, q]))
        invariant forall q :: 0 <= q < j ==> a[i, q] == f(old(a[i, q]))
        invariant forall q :: j <= q < a.Length1 ==> a[i, q] == old(a[i, q])
        invariant forall p, q :: i < p < a.Length0 && 0 <= q < a.Length1 ==> a[p, q] == old(a[p, q])
      {
        a[i, j] := f(a[i, j]);
        j := j + 1;
      }
      i := i + 1;
    }
  }

  /**
   * Zeroes the cells at or below t, then sets the cells above t to 255, in
   * place, and hands back the same buffer.
   */
  method Binarize(image: array2<Pixel>, t: int) returns (same: array2<Pixel>)
    modifies image
    ensures same == image
    ensures forall i, j :: 0 <= i < image.Length0 && 0 <= j < image.Length1 ==>
      image[i, j] == Level(old(image[i, j]), t)
    ensures Cells(image) == Binarized(old(Cells(image)), t)
  {
    ghost var before := Cells(image);
    MapCells(image, (v: Pixel) => if v <= t then 0 as Pixel else v);
    MapCells(image, (v: Pixel) => if v > t then 255 as Pixel else v);
    same := image;
    forall i | 0 <= i < image.Length0
      ensures Cells(image)[i] == Binarized(before, t)[i]
    {
      assert |Cells(image)[i]| == |Binarized(before, t)[i]|;
    }
  }

  /** The cells of a buffer, row by row. */
  function Cells(a: array2<Pixel>): (g: Grid)
    reads a
    ensures |g| == a.Length0 && Rectangular(g)
    ensures forall i, j :: 0 <= i < a.Length0 && 0 <= j < a.Length1 ==> |g[i]| == a.Length1 && g[i][j] == a[i, j]
  {
    seq(a.Length0, i requires 0 <= i < a.Length0 reads a =>
      seq(a.Length1, j requires 0 <= j < a.Length1 reads a => a[i, j]))
  }

  /** The value `binarize(g, t)` turns g into. */
  function Binarized(g: Grid, t: int): (b: Grid)
    ensures |b| == |g|
    ensures forall i :: 0 <= i < |g| ==> |b[i]| == |g[i]|
    ensures forall i, j :: 0 <= i < |g| && 0 <= j < |g[i]| ==> b[i][j] == Level(g[i][j], t)
  {
    seq(|g|, i requires 0 <= i < |g| =>
      seq(|g[i]|, j requires 0 <= j < |g[i]| => Level(g[i][j], t)))
  }

  /**
   * Binarizing a buffer twice with the same threshold t gives what
   * binarizing once gives, whatever t is: for 0 <= t < 255 the value 0 stays
   * at or below t and 255 stays above it; below 0 every cell is 255 both
   * times, and from 255 on every cell is 0 both times.
   */
  lemma BinarizeIdempotent(g: Grid, t: int)
    ensures Binarized(Binarized(g, t), t) == Binarized(g, t)
  {
    var once := Binarized(g, t);
    var twice := Binarized(once, t);
    forall i | 0 <= i < |g|
      ensures twice[i] == once[i]
    {
      assert |twice[i]| == |once[i]|;
      forall j | 0 <= j < |g[i]|
        ensures twice[i][j] == once[i][j]
      {
      }
    }
  }

  /** Number of entries of s above t. */
  function CountAbove(s: seq<Pixel>, t: int): nat
  {
    if s == [] then 0
    else CountAbove(s[..|s| - 1], t) + (if s[|s| - 1] > t then 1 else 0)
  }

  /** Number of cells of g above t. */
  function GridAbove(g: Grid, t: int): nat
  {
    if g == [] then 0
    else GridAbove(g[..|g| - 1], t) + CountAbove(g[|g| - 1], t)
  }

  lemma {:induction false} CountAboveBinarizedRow(s: seq<Pixel>, b: seq<Pixel>, t: int)
    requires |b| == |s|
    requires forall j :: 0 <= j < |s| ==> b[j] == Level(s[j], t)
    ensures CountAbove(b, 0) == CountAbove(s, t)
  {
    if s != [] {
      CountAboveBinarizedRow(s[..|s| - 1], b[..|b| - 1], t);
    }
  }

  /**
   * After binarizing at t, the nonzero cells are exactly the cells that
   * were above t, so countNonZero of the result counts them.
   */
  lemma {:induction false} BinarizedNonZeroCount(g: Grid, t: int)
    ensures GridAbove(Binarized(g, t), 0) == GridAbove(g, t)
  {
    if g != [] {
      var b := Binarized(g, t);
      var n := |g| - 1;
      assert b[..n] == Binarized(g[..n], t);
      BinarizedNonZeroCount(g[..n], t);
      CountAboveBinarizedRow(g[n], b[n], t);
    }
  }

  /** OpenCV's `countNonZero`. */
  method CountNonZero(a: array2<Pixel>) returns (count: nat)
    ensures count == GridAbove(Cells(a), 0)
  {
    ghost var g := Cells(a);
    count := 0;
    var i := 0;
    while i < a.Length0
      invariant 0 <= i <= a.Length0
      invariant count == GridAbove(g[..i], 0)
    {
      ghost var row := g[i];
      var j := 0;
      var inRow := 0;
      while j < a.Length1
        invariant 0 <= j <= a.Length1
        invariant inRow == CountAbove(row[..j], 0)
      {
        assert row[..j + 1][..j] == row[..j];
        if a[i, j] != 0 {
          inRow := inRow + 1;
        }
        j := j + 1;
      }
      assert row[..a.Length1] == row;
      assert g[..i + 1][..i] == g[..i];
      count := count + inRow;
      i := i + 1;
    }
    assert g[..a.Length0] == g;
  }
}
