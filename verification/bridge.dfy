/**
 * `bridgePresent` (guitarFunctions.py): the bright bridge hardware shows as
 * many white pixels in the rightmost columns of a correctly framed crop.
 */
module Bridge {
  import opened Images
  import opened Threshold

  /** Width of the strip `gray[:, -20:]`. */
  const StripWidth := 20
  /** Binarization threshold for "white". */
  const WhiteLevel := 127
  /** The bridge is present when strictly more white pixels than this are found. */
  const WhitePixels := 1300

  /** `board[:, -20:]`: the rightmost min(20, width) columns of every row. */
  function Strip(board: Grid): (r: Grid)
    requires Rectangular(board)
    ensures |r| == |board| && Rectangular(r)
    ensures forall i :: 0 <= i < |r| ==>
      r[i] == board[i][Width(board) - Min(StripWidth, Width(board))..]
  {
    var lo := SliceIndex(-StripWidth, Width(board));
    seq(|board|, i requires 0 <= i < |board| => board[i][lo..])
  }

  /** Number of strip pixels brighter than the white level. */
  function WhiteInStrip(board: Grid): nat
    requires Rectangular(board)
  {
    GridAbove(Strip(board), WhiteLevel)
  }

  /**
   * Copies the strip (the fresh buffer cv2.cvtColor produces, viewed through
   * the slice), binarizes it in place at 127, counts its nonzero cells and
   * compares the count with 1300. OpenCV refuses to convert an empty image,
   * hence the board must have at least one row and one column.
   */
  method BridgePresent(board: Grid) returns (present: bool)
    requires Rectangular(board) && |board| > 0 && Width(board) > 0
    ensures present <==> WhiteInStrip(board) > WhitePixels
  {
    var h, w := |board|, Width(board);
    var lo := SliceIndex(-StripWidth, w);
    var roi := new Pixel[h, w - lo]((i: nat, j: nat) requires i < h && j < w - lo => board[i][lo + j]);
    ghost var strip := Strip(board);
    assert Cells(roi) == strip by {
      forall i | 0 <= i < h
        ensures Cells(roi)[i] == strip[i]
      {
        assert |Cells(roi)[i]| == |strip[i]|;
      }
    }
    var binary := Binarize(roi, WhiteLevel);
    assert Cells(binary) == Binarized(strip, WhiteLevel) by {
      forall i | 0 <= i < h
        ensures Cells(binary)[i] == Binarized(strip, WhiteLevel)[i]
      {
        assert |Cells(binary)[i]| == |strip[i]|;
      }
    }
    var count := CountNonZero(binary);
    BinarizedNonZeroCount(strip, WhiteLevel);
    present := count > WhitePixels;
  }

  /**
   * The strip holds at most 20 pixels per row, so a board of 65 rows or
   * fewer can never show a bridge.
   */
  lemma {:induction false} WhiteInStripBound(board: Grid)
    requires Rectangular(board)
    ensures WhiteInStrip(board) <= StripWidth * |board|
    ensures |board| <= 65 ==> WhiteInStrip(board) <= WhitePixels
  {
    StripCountBound(Strip(board), WhiteLevel);
  }

  lemma {:induction false} RowCountBound(s: seq<Pixel>, t: int)
    ensures CountAbove(s, t) <= |s|
  {
    if s != [] {
      RowCountBound(s[..|s| - 1], t);
    }
  }

  lemma {:induction false} StripCountBound(g: Grid, t: int)
    requires forall i :: 0 <= i < |g| ==> |g[i]| <= StripWidth
    ensures GridAbove(g, t) <= StripWidth * |g|
  {
    if g != [] {
      StripCountBound(g[..|g| - 1], t);
      RowCountBound(g[|g| - 1], t);
    }
  }
}
