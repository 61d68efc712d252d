/**
 * A packing: the main circle and the ordered inner circles, and its conversion
 * to and from the flat state vector `[x1..xn, y1..yn, R]` the optimizer works on.
 * The radii are not part of the vector; they travel beside it.
 */
module Packing {
  import opened Wrappers
  import opened Geometry

  /** `CirclesPacking`; `CirclesPacking::new` is the datatype constructor. */
  datatype CirclesPacking = CirclesPacking(mainCircle: Circle, innerCircles: seq<Circle>)
  {
    /** `CirclesPacking::is_valid_pack`. */
    predicate IsValidPack()
    {
      ValidCircles(mainCircle.radius, innerCircles)
    }
  }

  predicate AllPlaced(cs: seq<Circle>)
  {
    forall k :: 0 <= k < |cs| ==> cs[k].center.Some?
  }

  /** The radii of `cs`, in order. */
  function Radii(cs: seq<Circle>): (r: seq<real>)
    ensures |r| == |cs|
    ensures forall k :: 0 <= k < |cs| ==> r[k] == cs[k].radius
  {
    seq(|cs|, k requires 0 <= k < |cs| => cs[k].radius)
  }

  /**
   * `from_coords_vec_and_radiuses`: the main circle sits at the origin with the
   * last component as radius; circle `i` of the `|x| / 2` inner circles has
   * radius `radiuses[i]` and centre `(x[i], x[i + |x| / 2])`.  Indexing `x` at
   * `|x| - 1` and `radiuses` below `|x| / 2` is what the source demands.
   */
  function FromCoordsVecAndRadiuses(x: seq<real>, radiuses: seq<real>): (p: CirclesPacking)
    requires |x| >= 1 && |radiuses| >= |x| / 2
    ensures p.mainCircle == NewCircle(x[|x| - 1], Origin)
    ensures |p.innerCircles| == |x| / 2
    ensures forall i :: 0 <= i < |x| / 2 ==>
      p.innerCircles[i].radius == radiuses[i] && p.innerCircles[i].center == Some(Point(x[i], x[i + |x| / 2]))
  {
    var n := |x| / 2;
    CirclesPacking(
      NewCircle(x[|x| - 1], Origin),
      seq(n, i requires 0 <= i < n => NewCircle(radiuses[i], Point(x[i], x[i + n]))))
  }

  /**
   * `into_coords_vec`: all x coordinates, then all y coordinates, then the main
   * radius.  The source panics (`expect`) on an unplaced inner circle.
   */
  function IntoCoordsVec(p: CirclesPacking): (v: seq<real>)
    requires AllPlaced(p.innerCircles)
    ensures |v| == 2 * |p.innerCircles| + 1
    ensures forall i :: 0 <= i < |p.innerCircles| ==>
      v[i] == p.innerCircles[i].center.value.x && v[|p.innerCircles| + i] == p.innerCircles[i].center.value.y
    ensures v[2 * |p.innerCircles|] == p.mainCircle.radius
  {
    var cs := p.innerCircles;
    seq(|cs|, i requires 0 <= i < |cs| => cs[i].center.value.x)
      + seq(|cs|, i requires 0 <= i < |cs| => cs[i].center.value.y)
      + [p.mainCircle.radius]
  }

  /**
   * The validity condition shared by `CirclesPacking::is_valid_pack` and the
   * heuristic's free `is_valid_pack`: every circle is inside the main circle
   * (exact test) and no two distinct circles overlap (exact test).
   */
  predicate ValidCircles(mainRadius: real, cs: seq<Circle>)
  {
    && (forall k :: 0 <= k < |cs| ==> IsInsideMainCircle(cs[k], mainRadius))
    && (forall i, j :: 0 <= i < j < |cs| ==> !Overlap(cs[i], cs[j]))
  }

  // ---------------------------------------------------------------- properties

  /** Flattening the unflattened vector gives the vector back. */
  lemma IntoFromRoundTrip(x: seq<real>, radiuses: seq<real>)
    requires |x| == 2 * |radiuses| + 1
    ensures AllPlaced(FromCoordsVecAndRadiuses(x, radiuses).innerCircles)
    ensures IntoCoordsVec(FromCoordsVecAndRadiuses(x, radiuses)) == x
  {
    var p := FromCoordsVecAndRadiuses(x, radiuses);
    var v := IntoCoordsVec(p);
    var n := |radiuses|;
    assert |x| / 2 == n;
    forall k | 0 <= k < |x|
      ensures v[k] == x[k]
    {
      if k < n {
      } else if k < 2 * n {
        assert v[n + (k - n)] == x[(k - n) + n];
      }
    }
  }

  /** Unflattening the flattened packing with its own radii gives the packing back, when its main circle is at the origin. */
  lemma FromIntoRoundTrip(p: CirclesPacking)
    requires AllPlaced(p.innerCircles)
    requires p.mainCircle.center == Some(Origin)
    ensures FromCoordsVecAndRadiuses(IntoCoordsVec(p), Radii(p.innerCircles)) == p
  {
    var v := IntoCoordsVec(p);
    var n := |p.innerCircles|;
    var q := FromCoordsVecAndRadiuses(v, Radii(p.innerCircles));
    assert |v| / 2 == n;
    forall i | 0 <= i < n
      ensures q.innerCircles[i] == p.innerCircles[i]
    {
      assert q.innerCircles[i].center == Some(Point(v[i], v[i + n]));
    }
    assert q.innerCircles == p.innerCircles;
  }

  /** An unplaced circle makes a packing invalid. */
  lemma UnplacedIsInvalid(mainRadius: real, cs: seq<Circle>, k: nat)
    requires k < |cs| && cs[k].center.None?
    ensures !ValidCircles(mainRadius, cs)
  {
  }

  /**
   * For an exact square root, a valid packing meets the containment invariant:
   * every centre is placed at distance at most `R - r` from the origin, and
   * every two centres are farther apart than the sum of their radii.
   */
  lemma ValidMeansSeparated(mainRadius: real, cs: seq<Circle>, sqrt: real -> real)
    requires IsSqrt(sqrt)
    requires ValidCircles(mainRadius, cs)
    ensures AllPlaced(cs)
    ensures forall k :: 0 <= k < |cs| ==> sqrt(SqNorm(cs[k].center.value)) <= mainRadius - cs[k].radius
    ensures forall i, j :: 0 <= i < j < |cs| ==>
      Distance(cs[i], cs[j], sqrt).value > cs[i].radius + cs[j].radius
  {
    forall k | 0 <= k < |cs|
      ensures cs[k].center.Some? && sqrt(SqNorm(cs[k].center.value)) <= mainRadius - cs[k].radius
    {
      InsideMainIsNormAtMost(cs[k], mainRadius, sqrt);
    }
    forall i, j | 0 <= i < j < |cs|
      ensures Distance(cs[i], cs[j], sqrt).value > cs[i].radius + cs[j].radius
    {
      OverlapIsDistanceAtMostRadiusSum(cs[i], cs[j], sqrt);
    }
  }
}
