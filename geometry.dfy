/**
 * Points and circles, and the overlap and containment predicates every other
 * part of the packer is built on.  A circle whose centre is `None` is not yet
 * placed; every predicate is false for it.
 *
 * The source compares square roots, `sqrt(q) <= s`.  Over the reals, for the
 * non-negative root of a non-negative `q`, that comparison is exactly
 * `s >= 0 && q <= s * s` (`SqrtAtMost`); `SqrtAtMostExact` proves the
 * equivalence for every exact square root, so the sqrt-based predicates are
 * modelled without a square-root function.  `Distance`, which returns the root
 * itself, takes the square root as a parameter.
 */
module Geometry {
  import opened Wrappers

  datatype Point = Point(x: real, y: real)

  /** `Point::default()`. */
  const Origin: Point := Point(0.0, 0.0)

  datatype Circle = Circle(center: Option<Point>, radius: real)

  /** `Circle::default()`: unplaced, radius zero. */
  const DefaultCircle: Circle := Circle(None, 0.0)

  function Sq(a: real): real { a * a }

  /** Squared distance between two points. */
  function SqDist(p: Point, q: Point): real
  {
    Sq(p.x - q.x) + Sq(p.y - q.y)
  }

  /** Squared distance from the origin. */
  function SqNorm(p: Point): real
  {
    Sq(p.x) + Sq(p.y)
  }

  /** `sqrt(q) <= s`, for the non-negative square root of `q >= 0`. */
  predicate SqrtAtMost(q: real, s: real)
  {
    s >= 0.0 && q <= s * s
  }

  /** `sqrt` returns the exact non-negative square root of every non-negative real. */
  ghost predicate IsSqrt(sqrt: real -> real)
  {
    forall q :: q >= 0.0 ==> sqrt(q) >= 0.0 && sqrt(q) * sqrt(q) == q
  }

  /** For an exact root `r` of `q`, `r <= s` holds exactly when `SqrtAtMost(q, s)` does. */
  lemma SqrtAtMostExact(q: real, r: real, s: real)
    requires r >= 0.0 && r * r == q
    ensures r <= s <==> SqrtAtMost(q, s)
  {
    if r <= s {
      SquareMono(r, s);
    } else if s >= 0.0 {
      SquareStrict(s, r);
    }
  }

  lemma MulLeftMono(k: real, a: real, b: real)
    requires k >= 0.0 && a <= b
    ensures k * a <= k * b
  {
    assert k * b - k * a == k * (b - a);
  }

  lemma MulLeftStrict(k: real, a: real, b: real)
    requires k > 0.0 && a < b
    ensures k * a < k * b
  {
    assert k * b - k * a == k * (b - a);
  }

  lemma SquareMono(r: real, s: real)
    requires 0.0 <= r <= s
    ensures r * r <= s * s
  {
    MulLeftMono(r, r, s);
    MulLeftMono(s, r, s);
  }

  lemma SquareStrict(s: real, r: real)
    requires 0.0 <= s < r
    ensures s * s < r * r
  {
    assert r * r - s * s == (r - s) * (r + s);
    MulLeftStrict(r - s, 0.0, r + s);
  }

  /** `Circle::new`: a placed circle. */
  function NewCircle(radius: real, center: Point): (c: Circle)
    ensures c.center == Some(center) && c.radius == radius
  {
    Circle(Some(center), radius)
  }

  /** `Circle::with_radius`: an unplaced circle. */
  function WithRadius(radius: real): (c: Circle)
    ensures c.center.None? && c.radius == radius
  {
    Circle(None, radius)
  }

  /** `overlap`: the centres are no farther apart than the sum of the radii (touching counts). */
  predicate Overlap(a: Circle, b: Circle)
  {
    match (a.center, b.center)
    case (Some(p), Some(q)) => SqrtAtMost(SqDist(p, q), a.radius + b.radius)
    case _ => false
  }

  /** `overlap_quad`: the same test on squares, without the sign check on the radius sum. */
  predicate OverlapQuad(a: Circle, b: Circle)
  {
    match (a.center, b.center)
    case (Some(p), Some(q)) => SqDist(p, q) <= Sq(a.radius + b.radius)
    case _ => false
  }

  /** `is_overlap`: `c` overlaps some circle of `cs`. */
  function IsOverlap(c: Circle, cs: seq<Circle>): (r: bool)
    ensures r <==> exists k :: 0 <= k < |cs| && Overlap(c, cs[k])
  {
    if cs == [] then false
    else
      assert forall k :: 1 <= k < |cs| ==> cs[1..][k - 1] == cs[k];
      Overlap(c, cs[0]) || IsOverlap(c, cs[1..])
  }

  /** `is_overlap_quad`: `c` overlaps, by the squared test, some circle of `cs`. */
  function IsOverlapQuad(c: Circle, cs: seq<Circle>): (r: bool)
    ensures r <==> exists k :: 0 <= k < |cs| && OverlapQuad(c, cs[k])
  {
    if cs == [] then false
    else
      assert forall k :: 1 <= k < |cs| ==> cs[1..][k - 1] == cs[k];
      OverlapQuad(c, cs[0]) || IsOverlapQuad(c, cs[1..])
  }

  /** `distance`: `None` stands for `INFINITY`, returned when either circle is unplaced. */
  function Distance(a: Circle, b: Circle, sqrt: real -> real): (d: Option<real>)
    ensures d.Some? <==> a.center.Some? && b.center.Some?
  {
    match (a.center, b.center)
    case (Some(p), Some(q)) => Some(sqrt(SqDist(p, q)))
    case _ => None
  }

  /** `inside`: `a` lies within `b`; the centre distance is at most `b.radius - a.radius`. */
  predicate Inside(a: Circle, b: Circle)
  {
    match (a.center, b.center)
    case (Some(p), Some(q)) => SqrtAtMost(SqDist(p, q), b.radius - a.radius)
    case _ => false
  }

  /** `is_inside_main_circle`: `c` lies within the main circle of radius `mainRadius` centred at the origin. */
  predicate IsInsideMainCircle(c: Circle, mainRadius: real)
  {
    match c.center
    case Some(p) => SqrtAtMost(SqNorm(p), mainRadius - c.radius)
    case None => false
  }

  /** `is_inside_main_circle_quad`: the squared test, which does not check the sign of `mainRadius - c.radius`. */
  predicate IsInsideMainCircleQuad(c: Circle, mainRadius: real)
  {
    match c.center
    case Some(p) => SqNorm(p) <= Sq(mainRadius - c.radius)
    case None => false
  }

  // ---------------------------------------------------------------- properties

  /** Overlap needs two placed circles, and touching circles overlap. */
  lemma OverlapCases(a: Circle, b: Circle)
    ensures a.center.None? || b.center.None? ==> !Overlap(a, b) && !OverlapQuad(a, b)
    ensures a.center.Some? && b.center.Some? ==>
      (OverlapQuad(a, b) <==> SqDist(a.center.value, b.center.value) <= Sq(a.radius + b.radius))
    ensures (a.center.Some? && b.center.Some? && a.radius + b.radius >= 0.0
             && SqDist(a.center.value, b.center.value) == Sq(a.radius + b.radius)) ==> Overlap(a, b)
  {
  }

  /** Containment needs placed circles, and the squared containment test is exactly `x² + y² <= (R - r)²`. */
  lemma ContainmentCases(c: Circle, d: Circle, mainRadius: real)
    ensures c.center.None? ==> !IsInsideMainCircle(c, mainRadius) && !IsInsideMainCircleQuad(c, mainRadius)
    ensures c.center.None? || d.center.None? ==> !Inside(c, d)
    ensures c.center.Some? ==>
      (IsInsideMainCircleQuad(c, mainRadius) <==>
       c.center.value.x * c.center.value.x + c.center.value.y * c.center.value.y <= (mainRadius - c.radius) * (mainRadius - c.radius))
  {
  }

  /** Both overlap tests are symmetric. */
  lemma OverlapSymmetric(a: Circle, b: Circle)
    ensures Overlap(a, b) == Overlap(b, a)
    ensures OverlapQuad(a, b) == OverlapQuad(b, a)
  {
    if a.center.Some? && b.center.Some? {
      var p, q := a.center.value, b.center.value;
      assert SqDist(p, q) == SqDist(q, p);
    }
  }

  /** With a non-negative radius sum the exact and the squared overlap tests agree. */
  lemma OverlapAgreesWithQuad(a: Circle, b: Circle)
    requires a.radius + b.radius >= 0.0
    ensures Overlap(a, b) == OverlapQuad(a, b)
  {
  }

  /** With `mainRadius - c.radius >= 0` the exact and the squared containment tests agree. */
  lemma InsideMainAgreesWithQuad(c: Circle, mainRadius: real)
    requires mainRadius - c.radius >= 0.0
    ensures IsInsideMainCircle(c, mainRadius) == IsInsideMainCircleQuad(c, mainRadius)
  {
  }

  /** The squared test accepts a circle larger than the main circle, centred at the origin; the exact test does not. */
  lemma QuadContainmentSkipsSign()
    ensures IsInsideMainCircleQuad(NewCircle(5.0, Origin), 1.0)
    ensures !IsInsideMainCircle(NewCircle(5.0, Origin), 1.0)
  {
  }

  /** For an exact square root, `Overlap` is the source's `distance <= radius_sum`. */
  lemma OverlapIsDistanceAtMostRadiusSum(a: Circle, b: Circle, sqrt: real -> real)
    requires IsSqrt(sqrt)
    ensures Overlap(a, b) <==>
      Distance(a, b, sqrt).Some? && Distance(a, b, sqrt).value <= a.radius + b.radius
  {
    if a.center.Some? && b.center.Some? {
      var q := SqDist(a.center.value, b.center.value);
      SqDistNonNegative(a.center.value, b.center.value);
      SqrtAtMostExact(q, sqrt(q), a.radius + b.radius);
    }
  }

  /** For an exact square root, `Inside` is the source's `distance <= other.radius - self.radius`. */
  lemma InsideIsDistanceAtMostRadiusDifference(a: Circle, b: Circle, sqrt: real -> real)
    requires IsSqrt(sqrt)
    ensures Inside(a, b) <==>
      Distance(a, b, sqrt).Some? && Distance(a, b, sqrt).value <= b.radius - a.radius
  {
    if a.center.Some? && b.center.Some? {
      var q := SqDist(a.center.value, b.center.value);
      SqDistNonNegative(a.center.value, b.center.value);
      SqrtAtMostExact(q, sqrt(q), b.radius - a.radius);
    }
  }

  /** For an exact square root, `IsInsideMainCircle` is the source's `sqrt(x² + y²) <= R - r`. */
  lemma InsideMainIsNormAtMost(c: Circle, mainRadius: real, sqrt: real -> real)
    requires IsSqrt(sqrt)
    ensures IsInsideMainCircle(c, mainRadius) <==>
      c.center.Some? && sqrt(SqNorm(c.center.value)) <= mainRadius - c.radius
  {
    if c.center.Some? {
      var q := SqNorm(c.center.value);
      assert q >= 0.0;
      SqrtAtMostExact(q, sqrt(q), mainRadius - c.radius);
    }
  }

  /** The distance between placed circles is non-negative and symmetric. */
  lemma DistanceProperties(a: Circle, b: Circle, sqrt: real -> real)
    requires IsSqrt(sqrt)
    ensures Distance(a, b, sqrt) == Distance(b, a, sqrt)
    ensures Distance(a, b, sqrt).Some? ==> Distance(a, b, sqrt).value >= 0.0
  {
    if a.center.Some? && b.center.Some? {
      var p, q := a.center.value, b.center.value;
      assert SqDist(p, q) == SqDist(q, p);
      SqDistNonNegative(p, q);
    }
  }

  lemma SqDistNonNegative(p: Point, q: Point)
    ensures SqDist(p, q) >= 0.0
  {
  }
}
