/**
 * The two coordinate-clustering passes of `isolateNeck` (guitarFunctions.py):
 * keep the nearly straight segments, collect one coordinate of each end,
 * sort, and scan the gaps between neighbours for the extent of the densely
 * packed run of string rows or fret columns.
 */
module Clustering {
  import opened Images
  import opened Sorting

  /** Which pass: string rows from horizontal segments, or fret columns from vertical ones. */
  datatype Axis = Strings | Frets {

    /** A segment drifting less than this across the axis counts as straight. */
    function DriftLimit(): int {
      if Strings? then 10 else 5
    }

    /** Neighbouring coordinates closer than this belong to one run. */
    function GapLimit(): int {
      if Strings? then 6 else 10
    }

    /** Scan positions up to this one never set the first coordinate. */
    function Skip(): int {
      if Strings? then 3 else 2
    }

    /** `abs(y2 - y1)` for strings, `abs(x1 - x2)` for frets. */
    function Drift(l: Segment): nat {
      if Strings? then Abs(l.y2 - l.y1) else Abs(l.x1 - l.x2)
    }

    predicate Straight(l: Segment) {
      Drift(l) < DriftLimit()
    }

    /** The two coordinates a straight segment contributes, in the order appended. */
    function Ends(l: Segment): seq<int> {
      if Strings? then [l.y1, l.y2] else [l.x1, l.x2]
    }
  }

  /** `lastH`/`lastV`: `inf` until some gap is small enough. */
  datatype Bound = Inf | At(coord: int)

  /** What the filtering loop appends, segment after segment. */
  function Coordinates(lines: seq<Segment>, axis: Axis): seq<int>
  {
    if lines == [] then []
    else
      var l := lines[|lines| - 1];
      Coordinates(lines[..|lines| - 1], axis) + (if axis.Straight(l) then axis.Ends(l) else [])
  }

  /** The segments that pass the straightness test, in order. */
  function StraightLines(lines: seq<Segment>, axis: Axis): seq<Segment>
  {
    if lines == [] then []
    else
      var l := lines[|lines| - 1];
      StraightLines(lines[..|lines| - 1], axis) + (if axis.Straight(l) then [l] else [])
  }

  /** Each straight segment adds exactly two coordinates; the others add none. */
  lemma {:induction false} CoordinatesLength(lines: seq<Segment>, axis: Axis)
    ensures |Coordinates(lines, axis)| == 2 * |StraightLines(lines, axis)|
  {
    if lines != [] {
      CoordinatesLength(lines[..|lines| - 1], axis);
    }
  }

  /** A coordinate is collected exactly when it is an end of a straight segment. */
  lemma {:induction false} CoordinatesMembers(lines: seq<Segment>, axis: Axis, x: int)
    ensures x in Coordinates(lines, axis) <==>
      exists i :: 0 <= i < |lines| && axis.Straight(lines[i]) && x in axis.Ends(lines[i])
  {
    if lines != [] {
      var n := |lines| - 1;
      var init, l := lines[..n], lines[n];
      CoordinatesMembers(init, axis, x);
      assert Coordinates(lines, axis) == Coordinates(init, axis) + (if axis.Straight(l) then axis.Ends(l) else []);
      assert forall i :: 0 <= i < n ==> init[i] == lines[i];
    }
  }

  /** The filtering loop, appending both coordinates of every straight segment. */
  method Collect(lines: seq<Segment>, axis: Axis) returns (coords: seq<int>)
    ensures coords == Coordinates(lines, axis)
  {
    coords := [];
    for i := 0 to |lines|
      invariant coords == Coordinates(lines[..i], axis)
    {
      assert lines[..i + 1][..i] == lines[..i];
      var l := lines[i];
      if axis.Straight(l) {
        coords := coords + axis.Ends(l);
      }
    }
    assert lines[..|lines|] == lines;
  }

  /**
   * Entry i of the gap list `[0] + [s[k+1] - s[k] ...]`: the distance from
   * s[i] back to its predecessor, and 0 for the first coordinate.
   */
  function GapBefore(s: seq<int>, i: nat): int
    requires i < |s|
  {
    if i == 0 then 0 else s[i] - s[i - 1]
  }

  predicate Close(s: seq<int>, axis: Axis, i: nat)
    requires i < |s|
  {
    GapBefore(s, i) < axis.GapLimit()
  }

  /** The scan visits `range(len(diff) - 1)`: every position but the last. */
  function ScanEnd(s: seq<int>): nat {
    if |s| == 0 then 0 else |s| - 1
  }

  /** The last value after scanning positions 0 .. n-1. */
  function LastUpTo(s: seq<int>, axis: Axis, n: nat): Bound
    requires n <= |s|
  {
    if n == 0 then Inf
    else if Close(s, axis, n - 1) then At(s[n - 1])
    else LastUpTo(s, axis, n - 1)
  }

  /** The first value after scanning positions 0 .. n-1; 0 means unset. */
  function FirstUpTo(s: seq<int>, axis: Axis, n: nat): int
    requires n <= |s|
  {
    if n == 0 then 0
    else
      var f := FirstUpTo(s, axis, n - 1);
      if Close(s, axis, n - 1) && n - 1 > axis.Skip() && f == 0 then s[n - 1] else f
  }

  function LastOf(s: seq<int>, axis: Axis): Bound {
    LastUpTo(s, axis, ScanEnd(s))
  }

  function FirstOf(s: seq<int>, axis: Axis): int {
    FirstUpTo(s, axis, ScanEnd(s))
  }

  /** The gap-list loop and the scan loop of one pass, as written. */
  method Cluster(sorted: seq<int>, axis: Axis) returns (first: int, last: Bound)
    ensures first == FirstOf(sorted, axis)
    ensures last == LastOf(sorted, axis)
  {
    var diff := [0];
    var i := 0;
    while i < |sorted| - 1
      invariant 0 <= i <= ScanEnd(sorted)
      invariant |diff| == i + 1
      invariant forall k :: 0 <= k < |diff| && k < |sorted| ==> diff[k] == GapBefore(sorted, k)
    {
      diff := diff + [sorted[i + 1] - sorted[i]];
      i := i + 1;
    }
    first, last := 0, Inf;
    i := 0;
    while i < |diff| - 1
      invariant 0 <= i <= ScanEnd(sorted)
      invariant first == FirstUpTo(sorted, axis, i)
      invariant last == LastUpTo(sorted, axis, i)
    {
      if diff[i] < axis.GapLimit() {
        last := At(sorted[i]);
        if i > axis.Skip() && first == 0 {
          first := sorted[i];
        }
      }
      i := i + 1;
    }
  }

  lemma {:induction false} LastUpToCharacterised(s: seq<int>, axis: Axis, n: nat)
    requires n <= |s|
    ensures LastUpTo(s, axis, n) == Inf <==> forall i :: 0 <= i < n ==> !Close(s, axis, i)
    ensures LastUpTo(s, axis, n).At? ==>
      exists i :: 0 <= i < n && Close(s, axis, i) && LastUpTo(s, axis, n).coord == s[i] &&
        forall j :: i < j < n ==> !Close(s, axis, j)
  {
    if n > 0 {
      LastUpToCharacterised(s, axis, n - 1);
      if Close(s, axis, n - 1) {
        assert LastUpTo(s, axis, n).coord == s[n - 1];
      }
    }
  }

  /**
   * The last coordinate is the coordinate at the final scanned position
   * whose gap is below the limit; it stays `inf` exactly when there is none.
   */
  lemma LastOfCharacterised(s: seq<int>, axis: Axis)
    ensures LastOf(s, axis) == Inf <==> forall i :: 0 <= i < ScanEnd(s) ==> !Close(s, axis, i)
    ensures LastOf(s, axis).At? ==>
      exists i :: 0 <= i < |s| - 1 && Close(s, axis, i) && LastOf(s, axis).coord == s[i] &&
        forall j :: i < j < |s| - 1 ==> !Close(s, axis, j)
  {
    LastUpToCharacterised(s, axis, ScanEnd(s));
  }

  /**
   * With two or more coordinates the leading gap 0 is below the limit, so
   * the last coordinate is set; with fewer the scan is empty and it stays `inf`.
   */
  lemma LastSetIffTwoCoordinates(s: seq<int>, axis: Axis)
    ensures LastOf(s, axis).At? <==> |s| >= 2
  {
    LastUpToCharacterised(s, axis, ScanEnd(s));
    if |s| >= 2 {
      assert Close(s, axis, 0);
    }
  }

  lemma {:induction false} FirstUpToCharacterised(s: seq<int>, axis: Axis, n: nat)
    requires n <= |s|
    ensures FirstUpTo(s, axis, n) == 0 <==>
      forall i :: axis.Skip() < i < n && Close(s, axis, i) ==> s[i] == 0
    ensures FirstUpTo(s, axis, n) != 0 ==>
      exists i :: axis.Skip() < i < n && Close(s, axis, i) && s[i] == FirstUpTo(s, axis, n) &&
        forall j :: axis.Skip() < j < i && Close(s, axis, j) ==> s[j] == 0
  {
    if n > 0 {
      FirstUpToCharacterised(s, axis, n - 1);
    }
  }

  /**
   * The first coordinate is 0 (unset) or the coordinate at the earliest
   * position past the skip whose gap is below the limit and whose value is
   * nonzero: a coordinate 0 leaves it unset.
   */
  lemma FirstOfCharacterised(s: seq<int>, axis: Axis)
    ensures FirstOf(s, axis) == 0 <==>
      forall i :: axis.Skip() < i < |s| - 1 && Close(s, axis, i) ==> s[i] == 0
    ensures FirstOf(s, axis) != 0 ==>
      exists i :: axis.Skip() < i < |s| - 1 && Close(s, axis, i) && s[i] == FirstOf(s, axis) &&
        forall j :: axis.Skip() < j < i && Close(s, axis, j) ==> s[j] == 0
  {
    FirstUpToCharacterised(s, axis, ScanEnd(s));
  }

  /** On sorted coordinates the last value is at least every close coordinate scanned. */
  lemma {:induction false} LastAtLeastClose(s: seq<int>, axis: Axis, n: nat, i: nat)
    requires SortedBy(s, IntLe)
    requires i < n <= |s| && Close(s, axis, i)
    ensures LastUpTo(s, axis, n).At? && s[i] <= LastUpTo(s, axis, n).coord
  {
    if !Close(s, axis, n - 1) {
      LastAtLeastClose(s, axis, n - 1, i);
    } else if i < n - 1 {
      assert IntLe(s[i], s[n - 1]);
    }
  }

  /**
   * On sorted coordinates a set first coordinate never lies beyond the last
   * one: the position that set it was itself close, so the last close
   * position is at or after it.
   */
  lemma FirstNotAfterLast(s: seq<int>, axis: Axis)
    requires SortedBy(s, IntLe)
    ensures FirstOf(s, axis) != 0 ==> LastOf(s, axis).At? && FirstOf(s, axis) <= LastOf(s, axis).coord
  {
    if FirstOf(s, axis) != 0 {
      FirstOfCharacterised(s, axis);
      var i :| axis.Skip() < i < |s| - 1 && Close(s, axis, i) && s[i] == FirstOf(s, axis);
      LastAtLeastClose(s, axis, ScanEnd(s), i);
    }
  }

  /** `sorted(...)` of the collected coordinates. */
  function SortedCoordinates(lines: seq<Segment>, axis: Axis): (s: seq<int>)
    ensures SortedBy(s, IntLe)
    ensures multiset(s) == multiset(Coordinates(lines, axis))
  {
    IntLeIsTotalPreorder();
    Sort(Coordinates(lines, axis), IntLe)
  }

  /** One whole pass: collect, sort and scan. */
  method Extent(lines: seq<Segment>, axis: Axis) returns (first: int, last: Bound)
    ensures first == FirstOf(SortedCoordinates(lines, axis), axis)
    ensures last == LastOf(SortedCoordinates(lines, axis), axis)
  {
    var coords := Collect(lines, axis);
    IntLeIsTotalPreorder();
    var sorted := Sort(coords, IntLe);
    first, last := Cluster(sorted, axis);
  }
}
