/**
 * The angle estimate of `rotateNeck` (guitarFunctions.py): the neck tilt is
 * 55 degrees per unit of median absolute slope of the segments found on the
 * vertical-gradient edge mask, and the frame is rotated by its negation.
 * Python floats are idealised as Dafny reals, extended with the +inf that
 * numpy's integer division yields for a vertical segment.
 */
module Tilt {
  import opened Images
  import opened Sorting

  /** Degrees of tilt per unit of slope, an empirically fitted constant. */
  const DegreesPerSlope: real := 55.0

  /** An absolute slope: a finite value, or +inf for a vertical segment. */
  datatype Slope = Finite(value: real) | Infinite

  /** The float order on slopes: +inf above every finite value. */
  function SlopeLe(a: Slope, b: Slope): bool {
    match (a, b)
    case (_, Infinite) => true
    case (Infinite, Finite(_)) => false
    case (Finite(x), Finite(y)) => x <= y
  }

  lemma SlopeLeIsTotalPreorder()
    ensures IsTotalPreorder(SlopeLe)
  {
  }

  /** A segment of zero length, whose slope 0/0 is nan. */
  predicate IsPoint(l: Segment) {
    l.x1 == l.x2 && l.y1 == l.y2
  }

  predicate NoPoint(lines: seq<Segment>) {
    forall i :: 0 <= i < |lines| ==> !IsPoint(lines[i])
  }

  /** `abs((y2 - y1) / (x2 - x1))`: rise over run without sign, +inf when the run is 0. */
  function SlopeOf(l: Segment): (m: Slope)
    requires !IsPoint(l)
    ensures m == Infinite <==> l.x1 == l.x2
    ensures m.Finite? ==> m.value >= 0.0 && m.value * Abs(l.x2 - l.x1) as real == Abs(l.y2 - l.y1) as real
  {
    if l.x1 == l.x2 then Infinite
    else
      var q := (l.y2 - l.y1) as real / (l.x2 - l.x1) as real;
      Finite(if q < 0.0 then -q else q)
  }

  /** The list of slopes the loop of rotateNeck accumulates. */
  function Slopes(lines: seq<Segment>): (r: seq<Slope>)
    requires NoPoint(lines)
    ensures |r| == |lines|
    ensures forall i :: 0 <= i < |lines| ==> r[i] == SlopeOf(lines[i])
  {
    if lines == [] then []
    else Slopes(lines[..|lines| - 1]) + [SlopeOf(lines[|lines| - 1])]
  }

  /** Number of vertical segments. */
  function VerticalCount(lines: seq<Segment>): nat {
    if lines == [] then 0
    else VerticalCount(lines[..|lines| - 1]) + (if lines[|lines| - 1].x1 == lines[|lines| - 1].x2 then 1 else 0)
  }

  /** Number of infinite slopes. */
  function Infinities(s: seq<Slope>): nat {
    multiset(s)[Infinite]
  }

  /** Each vertical segment contributes one infinite slope, and no other segment does. */
  lemma {:induction false} InfinitiesAreVerticals(lines: seq<Segment>)
    requires NoPoint(lines)
    ensures Infinities(Slopes(lines)) == VerticalCount(lines)
  {
    if lines != [] {
      var n := |lines| - 1;
      InfinitiesAreVerticals(lines[..n]);
      assert Slopes(lines) == Slopes(lines[..n]) + [SlopeOf(lines[n])];
    }
  }

  /** The mean of two slopes; +inf as soon as one of them is. */
  function Mean(a: Slope, b: Slope): Slope {
    if a.Finite? && b.Finite? then Finite((a.value + b.value) / 2.0) else Infinite
  }

  /**
   * `statistics.median`: the middle element of the sorted data, or the mean
   * of the two middle elements when their number is even.
   */
  function Median(s: seq<Slope>): Slope
    requires |s| > 0
  {
    SlopeLeIsTotalPreorder();
    var d := Sort(s, SlopeLe);
    var n := |d|;
    if n % 2 == 1 then d[n / 2] else Mean(d[n / 2 - 1], d[n / 2])
  }

  /** The median lies between two elements of the data. */
  lemma MedianBetween(s: seq<Slope>)
    requires |s| > 0
    ensures exists i :: 0 <= i < |s| && SlopeLe(s[i], Median(s))
    ensures exists j :: 0 <= j < |s| && SlopeLe(Median(s), s[j])
  {
    SlopeLeIsTotalPreorder();
    var d := Sort(s, SlopeLe);
    var n := |d|;
    if n % 2 == 1 {
      ElementOfPermutation(d, s, n / 2);
    } else {
      ElementOfPermutation(d, s, n / 2 - 1);
      ElementOfPermutation(d, s, n / 2);
      assert SlopeLe(d[n / 2 - 1], d[n / 2]);
    }
  }

  /** When all data agree, the median is that common value. */
  lemma MedianOfConstant(s: seq<Slope>, c: Slope)
    requires |s| > 0
    requires forall i :: 0 <= i < |s| ==> s[i] == c
    ensures Median(s) == c
  {
    MedianBetween(s);
  }

  /** In sorted slopes the infinite ones are exactly the last Infinities(d). */
  lemma {:induction false} InfinitiesAtEnd(d: seq<Slope>)
    requires SortedBy(d, SlopeLe)
    ensures Infinities(d) <= |d|
    ensures forall i :: 0 <= i < |d| ==> (d[i] == Infinite <==> i >= |d| - Infinities(d))
  {
    if d != [] {
      var n := |d| - 1;
      assert d == d[..n] + [d[n]];
      InfinitiesAtEnd(d[..n]);
      if d[n].Finite? {
        assert forall i :: 0 <= i < n ==> SlopeLe(d[i], d[n]);
        assert Infinite !in d;
      }
    }
  }

  /**
   * The median is finite exactly when fewer than half of the slopes are
   * infinite: sorting puts +inf last, so only then do the middle positions
   * hold finite values.
   */
  lemma MedianFiniteIffFewInfinite(s: seq<Slope>)
    requires |s| > 0
    ensures Median(s).Finite? <==> 2 * Infinities(s) < |s|
  {
    SlopeLeIsTotalPreorder();
    var d := Sort(s, SlopeLe);
    InfinitiesAtEnd(d);
    assert Infinities(d) == Infinities(s);
  }

  /** A finite median of absolute slopes is never negative. */
  lemma MedianNonNegative(lines: seq<Segment>)
    requires lines != [] && NoPoint(lines)
    ensures Median(Slopes(lines)).Finite? ==> Median(Slopes(lines)).value >= 0.0
  {
    MedianBetween(Slopes(lines));
  }

  /** Segments that all have the finite slope c give the median c. */
  lemma UniformSlopeMedian(lines: seq<Segment>, c: real)
    requires lines != [] && NoPoint(lines)
    requires forall i :: 0 <= i < |lines| ==> SlopeOf(lines[i]) == Finite(c)
    ensures Median(Slopes(lines)) == Finite(c)
  {
    MedianOfConstant(Slopes(lines), Finite(c));
  }

  /**
   * The argument rotateNeck passes to `rotate`, or NonFiniteSlope when the
   * median slope is not a finite number.
   */
  datatype Rotation = Rotate(angle: real) | NonFiniteSlope

  /**
   * The slope loop and angle of rotateNeck. An empty segment list stands for
   * HoughLinesP's None and gives a rotation by 0. A zero-length segment makes
   * a nan slope, which is reported as NonFiniteSlope.
   */
  method RotationAngle(lines: seq<Segment>) returns (r: Rotation)
    ensures lines == [] ==> r == Rotate(0.0)
    ensures !NoPoint(lines) ==> r == NonFiniteSlope
    ensures lines != [] && NoPoint(lines) ==>
      match Median(Slopes(lines))
      case Finite(m) => r == Rotate(-(DegreesPerSlope * m))
      case Infinite => r == NonFiniteSlope
    ensures r.Rotate? ==> r.angle <= 0.0
  {
    if lines == [] {
      return Rotate(0.0);
    }
    var slopes: seq<Slope> := [];
    var i := 0;
    while i < |lines|
      invariant 0 <= i <= |lines|
      invariant NoPoint(lines[..i])
      invariant slopes == Slopes(lines[..i])
    {
      var l := lines[i];
      if l.x1 == l.x2 && l.y1 == l.y2 {
        return NonFiniteSlope;
      }
      assert lines[..i + 1][..i] == lines[..i];
      slopes := slopes + [if l.x1 == l.x2 then Infinite else SlopeOf(l)];
      i := i + 1;
    }
    assert lines[..i] == lines;
    var median := Median(slopes);
    if median.Infinite? {
      return NonFiniteSlope;
    }
    MedianNonNegative(lines);
    r := Rotate(-(DegreesPerSlope * median.value));
  }

  /**
   * On segments of nonzero length, rotateNeck rotates by a finite angle
   * exactly when fewer than half of them are vertical.
   */
  lemma RotatesIffFewVertical(lines: seq<Segment>)
    requires lines != [] && NoPoint(lines)
    ensures Median(Slopes(lines)).Finite? <==> 2 * VerticalCount(lines) < |lines|
  {
    MedianFiniteIffFewInfinite(Slopes(lines));
    InfinitiesAreVerticals(lines);
  }

  /**
   * Two segments of one finite slope c and a vertical one: the +inf slope
   * sorts last and the median is c, so the frame is still rotated, by
   * -(55 x c). Two segments from (0, 0) to (10, 1) and one from (5, 0) to
   * (5, 40) give the rotation -5.5.
   */
  lemma VerticalMinorityStillRotates(a: Segment, b: Segment, v: Segment, c: real)
    requires !IsPoint(a) && !IsPoint(b) && !IsPoint(v)
    requires SlopeOf(a) == Finite(c) && SlopeOf(b) == Finite(c) && v.x1 == v.x2
    ensures Median(Slopes([a, b, v])) == Finite(c)
  {
    var s := Slopes([a, b, v]);
    assert s == [Finite(c), Finite(c), Infinite];
    SlopeLeIsTotalPreorder();
    MiddleOfOneInfinity(s, Sort(s, SlopeLe), c);
  }

  /** Sorted, two copies of Finite(c) and one +inf leave Finite(c) in the middle. */
  lemma MiddleOfOneInfinity(s: seq<Slope>, d: seq<Slope>, c: real)
    requires s == [Finite(c), Finite(c), Infinite]
    requires SortedBy(d, SlopeLe) && multiset(d) == multiset(s)
    ensures |d| == 3 && d[1] == Finite(c)
  {
    assert |d| == |multiset(s)| == 3;
    assert multiset(s)[Infinite] == 1;
    InfinitiesAtEnd(d);
    assert d[1] in multiset(s);
  }
}
