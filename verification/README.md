# Fretboard detector: decision logic

This project models the integer and geometric core of the fretboard detector in
`guitarFunctions.py` of a multimodal guitar chord recogniser, and proves
properties of it in Dafny. The detector works on one camera frame:

- `rotateNeck` estimates the neck tilt from the line segments found on a
  vertical-gradient edge mask. The tilt is 55 degrees times the median
  absolute slope, and the frame is rotated by its negation.
- `isolateNeck` works on the derotated frame. It keeps the nearly horizontal
  ("string") and nearly vertical ("fret") segments and collects their row and
  column coordinates. It sorts the coordinates and scans the gaps between
  neighbours to find the extent of the densely packed grid.
- A size gate then checks that extent, and a padded crop is cut.
- The crop is accepted only if its size lies within absolute bounds and
  `bridgePresent` finds enough white pixels in its rightmost 20 columns.
- `binarize` thresholds a pixel buffer in place.

The OpenCV stages that produce the inputs are parameters here:

- Sobel gradients and `HoughLinesP` give the segment lists.
- `cvtColor` gives the grayscale grid.

A frame is a rectangular grid of 8-bit grayscale values (`Images.Grid`). A
segment is an integer 4-tuple (`Images.Segment`). `HoughLinesP` returns
`None`, never an empty array, when it finds nothing, so an empty segment list
stands for `None`. Python floats are idealised as Dafny reals.

Modules, one per concern, in `.dfy` files of the same name:

- `Images`: pixels, grids, segments, and Python's slice normalisation (a
  negative bound counts from the end, then both bounds are clamped).
- `Sorting`: insertion sort under a total preorder. It stands for Python's
  `sorted` and for the sort inside `statistics.median`.
- `Threshold`: `binarize` as an in-place update of an `array2`, and
  `countNonZero`.
- `Bridge`: `bridgePresent`.
- `Tilt`: slopes, median and the rotation angle of `rotateNeck`.
- `Clustering`: the segment filter, the coordinate collection and the gap scan.
  It keeps the source's sentinels: `inf` for an unset last coordinate, `0` for
  an unset first coordinate.
- `Neck`: the sentinel defaults, the size gate, the crop and the final checks
  of `isolateNeck`.

Behaviour of the code the model keeps:

- A vertical segment (`x2 == x1`) stays in the slope list. numpy's integer
  division makes its slope `+inf`, and `sorted` puts `+inf` after every
  finite slope. The median is therefore finite, and the frame is rotated,
  exactly when fewer than half of the segments are vertical
  (`Tilt.RotatesIffFewVertical`). A zero-length segment gives `nan`. The model
  reports both non-finite medians as the outcome `NonFiniteSlope`.
- `bridgePresent` counts the pixels strictly above 127, because `binarize`
  sends 127 to 0.
- The crop columns run from `firstV` to `lastV + 15`. The rows gain 15 on both
  sides. (The crop in generateImageDataset.py:51 also pads on the left.)
- An unset `lastV` defaults to the row count minus one, the same default as an
  unset `lastH`.
- `cv2.cvtColor` inside `bridgePresent` raises on an image with no rows or no
  columns. A crop that passes the size gate but is empty therefore ends in this
  exception, which the model returns as `EmptyCrop`. This happens whenever
  `firstH` is below 15, including the unset value 0, and the frame is tall
  enough: `firstH - 15` is then a negative slice start, which Python counts
  from the bottom of the frame (`Neck.CropNearTopIsEmpty`).
- For a box inside the frame, the padded crop has `lastH - firstH + 30` rows,
  and that must stay below 120. So only detected heights 61..89 pass, and the
  expected height of 100 always fails the bounds check
  (`Neck.AcceptedInBoundsExtent`).

## Model

| member | source | states |
|---|---|---|
| `Threshold.Level` | guitarFunctions.py:14-15 | a binarized cell is 0 or 255, and 255 exactly when the original value exceeded the threshold |
| `Threshold.MapCells` | guitarFunctions.py:14-15 | one masked numpy assignment: every cell of the buffer is replaced by f of its old value, in place |
| `Threshold.Binarize` | guitarFunctions.py:12-16 | zeroing the cells at or below t and then raising the cells above t to 255 leaves every cell at Level(old value, t); the buffer returned is the buffer passed in |
| `Threshold.Binarized` | guitarFunctions.py:12-16 | the value binarize turns a grid into keeps its shape and holds Level of each cell |
| `Threshold.BinarizeIdempotent` | guitarFunctions.py:12-16 | binarizing again with the same threshold changes nothing, for every threshold |
| `Threshold.BinarizedNonZeroCount` | guitarFunctions.py:226-229 | after binarizing at t, the number of nonzero cells equals the number of original cells above t |
| `Threshold.CountNonZero` | guitarFunctions.py:229 | countNonZero returns the number of nonzero cells of the buffer |
| `Threshold.Cells` | guitarFunctions.py:224-229 | the grid read from a buffer has the buffer's shape and its cells |
| `Bridge.Strip` | guitarFunctions.py:224 | `gray[:, -20:]` is, row by row, the last min(20, width) columns |
| `Bridge.BridgePresent` | guitarFunctions.py:215-232 | copying the strip, binarizing it at 127 and counting nonzero cells yields true exactly when more than 1300 strip pixels are above 127, so exactly 1300 gives false |
| `Bridge.WhiteInStripBound` | guitarFunctions.py:224-232 | the strip holds at most 20 white pixels per row, so a crop of 65 rows or fewer never shows a bridge |
| `Sorting.Insert` | guitarFunctions.py:109 | inserting into a sorted sequence keeps it sorted and adds exactly that element |
| `Sorting.Sort` | guitarFunctions.py:109 | `sorted` returns a sorted permutation of its input |
| `Tilt.SlopeOf` | guitarFunctions.py:46 | a segment's slope is `+inf` exactly when it is vertical; otherwise it is non-negative and equals rise over run in absolute value |
| `Tilt.Slopes` | guitarFunctions.py:42-46 | the slope list has one entry per segment, in order, each that segment's slope |
| `Tilt.InfinitiesAreVerticals` | guitarFunctions.py:42-46 | the slope list holds one `+inf` per vertical segment and no other |
| `Tilt.MedianBetween` | guitarFunctions.py:50 | `statistics.median` (middle element, or mean of the two middle ones) lies between two elements of the data in float order |
| `Tilt.MedianOfConstant` | guitarFunctions.py:50 | when all data are equal, the median is that common value |
| `Tilt.InfinitiesAtEnd` | guitarFunctions.py:50 | sorting puts every `+inf` slope after every finite one |
| `Tilt.MedianFiniteIffFewInfinite` | guitarFunctions.py:50 | the median is finite exactly when fewer than half of the slopes are `+inf` |
| `Tilt.MedianNonNegative` | guitarFunctions.py:42-51 | a finite median of the absolute slopes is never negative |
| `Tilt.UniformSlopeMedian` | guitarFunctions.py:50-51 | segments sharing the finite slope c have the median c |
| `Tilt.RotationAngle` | guitarFunctions.py:40-55 | no segments give a rotation by 0; a zero-length segment gives NonFiniteSlope; otherwise a finite median slope m gives the rotation -(55 x m), which is at most 0, and an infinite one gives NonFiniteSlope |
| `Tilt.RotatesIffFewVertical` | guitarFunctions.py:42-51 | the frame is rotated by a finite angle exactly when fewer than half of the segments are vertical |
| `Tilt.VerticalMinorityStillRotates` | guitarFunctions.py:42-51 | two segments of slope c and one vertical segment have the median c, so one vertical segment does not stop the rotation |
| `Clustering.CoordinatesLength` | guitarFunctions.py:98-105 | each straight segment adds exactly two coordinates and the others none, so the list has twice as many entries as there are straight segments |
| `Clustering.CoordinatesMembers` | guitarFunctions.py:155-159 | a coordinate is collected exactly when it is an end of a segment passing the straightness test (abs(y2-y1) < 10 for strings, abs(x1-x2) < 5 for frets) |
| `Clustering.Collect` | guitarFunctions.py:98-105 | the filtering loop appends both coordinates of every straight segment, in order |
| `Clustering.Cluster` | guitarFunctions.py:109-122 | building the gap list `[0] + consecutive differences` and scanning all of it but its last entry computes FirstOf and LastOf |
| `Clustering.LastOfCharacterised` | guitarFunctions.py:118-120 | the last value is `inf` exactly when no scanned gap is below the limit; otherwise it is the coordinate at the final such position, never the last coordinate of the list |
| `Clustering.LastSetIffTwoCoordinates` | guitarFunctions.py:110-120 | the last value is finite exactly when there are at least two coordinates, because the leading gap 0 is below the limit |
| `Clustering.FirstOfCharacterised` | guitarFunctions.py:173-177 | the first value is 0 or the coordinate at the earliest position past the skip (3 for strings, 2 for frets) whose gap is below the limit and whose coordinate is nonzero; a coordinate 0 leaves it unset |
| `Clustering.FirstNotAfterLast` | guitarFunctions.py:118-122 | on sorted coordinates a nonzero first value implies a finite last value at least as large |
| `Clustering.SortedCoordinates` | guitarFunctions.py:164 | the coordinates handed to the scan are sorted and a permutation of those collected |
| `Clustering.Extent` | guitarFunctions.py:164-177 | one pass, collect, sort and scan, yields FirstOf and LastOf of the sorted coordinates |
| `Images.Slice` | guitarFunctions.py:202 | a Python slice has the normalised length, and element k is the element at the normalised start plus k |
| `Images.Crop` | guitarFunctions.py:202 | `g[r0:r1, c0:c1]` is rectangular, has the normalised row count and column count, and holds the cells at the normalised offsets |
| `Neck.GateAndCrop` | guitarFunctions.py:190-212 | a crop is returned exactly when the size is within 40 of 600 x 100, the crop is not empty, more than 1300 strip pixels are white, and 90 < rows < 120 and 500 < cols < 650; an empty crop after a passed size gate is the EmptyCrop fault; everything else is None |
| `Neck.IsolateNeck` | guitarFunctions.py:95-212 | no string or no fret segments give None before the size gate; otherwise the outcome is GateAndCrop's on the box from the two clustering passes |
| `Neck.InBoundsCropSize` | guitarFunctions.py:202 | for a box inside the frame the crop is (lastH - firstH) + 30 rows by (lastV - firstV) + 15 columns of the frame |
| `Neck.AcceptedInBoundsExtent` | guitarFunctions.py:190-208 | for a box inside the frame both gates together admit only heights 61..89 and widths 560..634 |
| `Neck.CropNearTopIsEmpty` | guitarFunctions.py:202 | a first row below 15 wraps the slice start to the bottom of the frame, and in a tall enough frame the crop has no rows |
| `Neck.LastDefaultsWithoutStraightLines` | guitarFunctions.py:184-187 | without a straight segment the last row and the last column both become the row count minus one; with one they are collected coordinates |
| `Neck.FirstNotAfterLastInBox` | guitarFunctions.py:173-190 | in the detected box a set first row (column) is never beyond the last row (column) |

## Left out

- The OpenCV operations are inputs or are not modelled: Sobel gradients, `HoughLinesP`, `cv2.cvtColor`, the dilate/erode closing of the fret mask, and the `rotate` helper (`getRotationMatrix2D`, `warpAffine`). These are foreign library code. The segment lists and the grayscale grid are parameters, and the rotation is given by its angle only.
- The frame is one grayscale plane. `cvtColor` works pixel by pixel, so the gray of the crop is the crop of the gray. The colour crop that `isolateNeck` wraps in an `Image` is the same slice of the colour frame.
- Drawing, `cv2.imshow` and the deep-copied display buffers are not modelled. They are user-interface side effects only.
- The `if not image` guard of `isolateNeck` is not modelled. An `Image` object is always truthy, so the guard only stops a `None` argument.
- The `Image` wrapper of image.py is not modelled. Its constructor swallows exceptions.
- audio.py, generateAudioDataset.py, generateImageDataset.py and isolateFretboardTest.py are not part of this model. They hold audio numerics, capture loops, dataset I/O and key handling.
- `Tilt.RotationAngle`: a median of `+inf` or `nan` ends in `NonFiniteSlope` instead of the rotation by a non-finite angle that the code attempts. A zero-length segment always ends there, because the position of `nan` after `sorted` depends on the input order. `HoughLinesP` with a minimum line length of 30 does not produce such a segment. Float rounding is not modelled.
- Coordinates are unbounded integers. The int32 arithmetic of numpy on Hough coordinates cannot overflow for pixel coordinates of any real frame.
