/**
 * `isolateNeck` (guitarFunctions.py) from the segment lists on: the two
 * clustering passes give a box, the box must have about the expected size,
 * the padded crop must show the bridge and lie within absolute bounds.
 */
module Neck {
  import opened Images
  import opened Sorting
  import opened Clustering
  import opened Bridge

  const ExpectedWidth := 600
  const ExpectedHeight := 100
  const MinWidth := 500
  const MinHeight := 90
  const MaxWidth := 650
  const MaxHeight := 120
  /** Allowed distance of the detected size from the expected one. */
  const Tolerance := 40
  /** Margin added above, below and to the right of the box; not to the left. */
  const Padding := 15

  /** firstH, lastH (rows) and firstV, lastV (columns) after the sentinels are resolved. */
  datatype Box = Box(firstH: int, lastH: int, firstV: int, lastV: int)

  /** What isolateNeck gives back: no fretboard, a crop, or the exception an empty crop causes. */
  datatype Detection = NoNeck | Neck(crop: Grid) | EmptyCrop

  /** An `inf` last coordinate becomes `len(image) - 1`, the row count, on either axis. */
  function Resolve(b: Bound, rows: nat): int {
    match b
    case Inf => rows - 1
    case At(c) => c
  }

  /** The box both clustering passes produce on a frame with the given segments. */
  function DetectedBox(frame: Grid, stringLines: seq<Segment>, fretLines: seq<Segment>): Box {
    var h := SortedCoordinates(stringLines, Strings);
    var v := SortedCoordinates(fretLines, Frets);
    Box(FirstOf(h, Strings), Resolve(LastOf(h, Strings), |frame|),
        FirstOf(v, Frets), Resolve(LastOf(v, Frets), |frame|))
  }

  /** Width and height are each within the tolerance of the expected size. */
  predicate SizeGate(b: Box) {
    && Abs(b.lastV - b.firstV - ExpectedWidth) <= Tolerance
    && Abs(b.lastH - b.firstH - ExpectedHeight) <= Tolerance
  }

  /** `frame[firstH - 15 : lastH + 15, firstV : lastV + 15]`. */
  function CropOf(frame: Grid, b: Box): Grid
    requires Rectangular(frame)
  {
    Crop(frame, b.firstH - Padding, b.lastH + Padding, b.firstV, b.lastV + Padding)
  }

  function CropRows(frame: Grid, b: Box): nat {
    SliceLength(b.firstH - Padding, b.lastH + Padding, |frame|)
  }

  function CropCols(frame: Grid, b: Box): nat {
    SliceLength(b.firstV, b.lastV + Padding, Width(frame))
  }

  /** The crop's size lies strictly inside the absolute bounds. */
  predicate BoundsGate(rows: int, cols: int) {
    MinHeight < rows < MaxHeight && MinWidth < cols < MaxWidth
  }

  /** The size gate, the crop and the final checks of isolateNeck, for a resolved box. */
  method GateAndCrop(frame: Grid, b: Box) returns (r: Detection)
    requires Rectangular(frame)
    ensures r == EmptyCrop <==> SizeGate(b) && (CropRows(frame, b) == 0 || CropCols(frame, b) == 0)
    ensures r.Neck? <==>
      && SizeGate(b)
      && CropRows(frame, b) > 0 && CropCols(frame, b) > 0
      && WhiteInStrip(CropOf(frame, b)) > WhitePixels
      && BoundsGate(CropRows(frame, b), CropCols(frame, b))
    ensures r.Neck? ==> r.crop == CropOf(frame, b)
  {
    var width, height := b.lastV - b.firstV, b.lastH - b.firstH;
    if Abs(width - ExpectedWidth) <= Tolerance && Abs(height - ExpectedHeight) <= Tolerance {
      var crop := Crop(frame, b.firstH - Padding, b.lastH + Padding, b.firstV, b.lastV + Padding);
      assert crop == CropOf(frame, b);
      assert |crop| == CropRows(frame, b);
      assert |crop| > 0 ==> Width(crop) == CropCols(frame, b);
      if |crop| == 0 || Width(crop) == 0 {
        return EmptyCrop;
      }
      var present := BridgePresent(crop);
      if present && MaxHeight > |crop| > MinHeight && MaxWidth > |crop[0]| > MinWidth {
        return Neck(crop);
      }
    }
    return NoNeck;
  }

  /**
   * isolateNeck on a frame whose Hough passes found the given string and fret
   * segments (an empty list stands for HoughLinesP's None).
   */
  method IsolateNeck(frame: Grid, stringLines: seq<Segment>, fretLines: seq<Segment>) returns (r: Detection)
    requires Rectangular(frame)
    ensures stringLines == [] || fretLines == [] ==> r == NoNeck
    ensures stringLines != [] && fretLines != [] ==>
      var b := DetectedBox(frame, stringLines, fretLines);
      && (r == EmptyCrop <==> SizeGate(b) && (CropRows(frame, b) == 0 || CropCols(frame, b) == 0))
      && (r.Neck? <==>
            && SizeGate(b)
            && CropRows(frame, b) > 0 && CropCols(frame, b) > 0
            && WhiteInStrip(CropOf(frame, b)) > WhitePixels
            && BoundsGate(CropRows(frame, b), CropCols(frame, b)))
      && (r.Neck? ==> r.crop == CropOf(frame, b))
  {
    if stringLines == [] {
      return NoNeck;
    }
    var firstH, lastH := Extent(stringLines, Strings);
    if fretLines == [] {
      return NoNeck;
    }
    var firstV, lastV := Extent(fretLines, Frets);
    var rows := |frame|;
    if lastV == Inf {
      lastV := At(rows - 1);
    }
    if lastH == Inf {
      lastH := At(rows - 1);
    }
    var b := Box(firstH, lastH.coord, firstV, lastV.coord);
    assert b == DetectedBox(frame, stringLines, fretLines);
    r := GateAndCrop(frame, b);
  }

  /** Inside the frame, the crop is the box grown by 30 rows and 15 columns. */
  lemma InBoundsCropSize(frame: Grid, b: Box)
    requires Rectangular(frame)
    requires Padding <= b.firstH <= b.lastH && b.lastH + Padding <= |frame|
    requires 0 <= b.firstV <= b.lastV && b.lastV + Padding <= Width(frame)
    ensures CropRows(frame, b) == b.lastH - b.firstH + 2 * Padding
    ensures CropCols(frame, b) == b.lastV - b.firstV + Padding
    ensures CropOf(frame, b) == seq(b.lastH - b.firstH + 2 * Padding,
      i requires 0 <= i < b.lastH - b.firstH + 2 * Padding => frame[b.firstH - Padding + i][b.firstV..b.lastV + Padding])
  {
  }

  /**
   * For a box inside the frame the two gates together admit only heights
   * 61..89 and widths 560..634: the padded height must stay below 120, so
   * the expected height of 100 itself is always rejected.
   */
  lemma AcceptedInBoundsExtent(frame: Grid, b: Box)
    requires Rectangular(frame)
    requires Padding <= b.firstH <= b.lastH && b.lastH + Padding <= |frame|
    requires 0 <= b.firstV <= b.lastV && b.lastV + Padding <= Width(frame)
    requires SizeGate(b) && BoundsGate(CropRows(frame, b), CropCols(frame, b))
    ensures 61 <= b.lastH - b.firstH <= 89
    ensures 560 <= b.lastV - b.firstV <= 634
  {
  }

  /**
   * A first row below 15 (including the unset value 0) makes the slice start
   * `firstH - 15` negative, and Python counts it from the bottom of the frame:
   * in a frame tall enough the crop then has no rows at all.
   */
  lemma CropNearTopIsEmpty(frame: Grid, b: Box)
    requires 0 <= b.firstH < Padding
    requires 0 <= b.lastH + Padding && b.lastH + Padding <= |frame| + b.firstH - Padding
    ensures CropRows(frame, b) == 0
  {
  }

  /**
   * Without a straight segment the last coordinate stays `inf` and becomes
   * the frame's row count minus one, for the fret columns too; with one it
   * is one of the collected coordinates.
   */
  lemma LastDefaultsWithoutStraightLines(frame: Grid, stringLines: seq<Segment>, fretLines: seq<Segment>)
    ensures var b := DetectedBox(frame, stringLines, fretLines);
      && (StraightLines(stringLines, Strings) == [] ==> b.lastH == |frame| - 1)
      && (StraightLines(stringLines, Strings) != [] ==> b.lastH in Coordinates(stringLines, Strings))
      && (StraightLines(fretLines, Frets) == [] ==> b.lastV == |frame| - 1)
      && (StraightLines(fretLines, Frets) != [] ==> b.lastV in Coordinates(fretLines, Frets))
  {
    LastDefault(frame, stringLines, Strings);
    LastDefault(frame, fretLines, Frets);
  }

  lemma LastDefault(frame: Grid, lines: seq<Segment>, axis: Axis)
    ensures var s := SortedCoordinates(lines, axis);
      && (StraightLines(lines, axis) == [] ==> Resolve(LastOf(s, axis), |frame|) == |frame| - 1)
      && (StraightLines(lines, axis) != [] ==> Resolve(LastOf(s, axis), |frame|) in Coordinates(lines, axis))
  {
    var s := SortedCoordinates(lines, axis);
    CoordinatesLength(lines, axis);
    assert |s| == |multiset(s)| == |Coordinates(lines, axis)|;
    LastSetIffTwoCoordinates(s, axis);
    if LastOf(s, axis).At? {
      LastOfCharacterised(s, axis);
      var i :| 0 <= i < |s| - 1 && LastOf(s, axis).coord == s[i];
      assert s[i] in multiset(Coordinates(lines, axis));
    }
  }

  /** A set first row (column) is never below (right of) the last one. */
  lemma FirstNotAfterLastInBox(frame: Grid, stringLines: seq<Segment>, fretLines: seq<Segment>)
    ensures var b := DetectedBox(frame, stringLines, fretLines);
      && (b.firstH != 0 ==> b.firstH <= b.lastH)
      && (b.firstV != 0 ==> b.firstV <= b.lastV)
  {
    FirstNotAfterLast(SortedCoordinates(stringLines, Strings), Strings);
    FirstNotAfterLast(SortedCoordinates(fretLines, Frets), Frets);
  }
}
