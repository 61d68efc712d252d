/**
 * The closed-form placement formulas of the heuristic constructor:
 * rotation onto the rim of the main circle, the angle between consecutive
 * rim circles, the centre tangent to a placed circle and to the main circle,
 * the centre tangent to two placed circles, and the score `eval_alpha`.
 *
 * The source computes `sqrt`, `sin`, `cos` and `acos` in floating point; here
 * they are the fields of a `Numerics` value that every formula receives, and
 * nothing is assumed about them except where a lemma says so (`IsSqrt`,
 * `IsUnitCircle`).  With an exact square root the two tangency formulas are
 * proved to give tangent centres.
 *
 * Each formula is a function of plain reals (coordinates, gap-widened
 * distances), so that the polynomial identities behind the tangency proofs
 * are lemmas about those reals; the functions on circles pass the
 * components in.
 */
module Tangency {
  import opened Wrappers
  import opened Geometry

  /**
   * The real functions the formulas call.  `triangleAngle(a, b, c)` is the
   * angle opposite side `b` in a triangle with sides `a`, `b`, `c`, which the
   * source computes as `acos((a² + c² - b²) / (2ac))`.
   */
  datatype Numerics = Numerics(
    sqrt: real -> real,
    sin: real -> real,
    cos: real -> real,
    triangleAngle: (real, real, real) -> real)

  /** `sin² + cos² == 1` everywhere. */
  ghost predicate IsUnitCircle(num: Numerics)
  {
    forall a :: num.sin(a) * num.sin(a) + num.cos(a) * num.cos(a) == 1.0
  }

  /** `get_rotated_point`: the point at distance `yCoord` from the origin, `angle` clockwise from the positive y axis. */
  function RotatedPoint(num: Numerics, yCoord: real, angle: real): Point
  {
    Point(yCoord * num.sin(angle), yCoord * num.cos(angle))
  }

  /**
   * `angle_between_prev_next_circles`: the angle at the origin between the
   * centres of two consecutive rim circles that touch each other and the main
   * circle, all with the gap `delta`.
   */
  function AngleBetweenPrevNextCircles(num: Numerics, delta: real, prevRadius: real, nextRadius: real,
                                       mainCircleRadius: real): real
  {
    num.triangleAngle(
      mainCircleRadius - prevRadius - delta,
      prevRadius + nextRadius + delta,
      mainCircleRadius - nextRadius - delta)
  }

  // ------------------------------------------------ quadratics

  /** The coefficients of `a x² + b x + c`. */
  datatype Quadratic = Quadratic(a: real, b: real, c: real)

  function ValueAt(q: Quadratic, x: real): real
  {
    q.a * x * x + q.b * x + q.c
  }

  function Discriminant(q: Quadratic): real
  {
    q.b * q.b - 4.0 * q.a * q.c
  }

  /** `(-b - sqrt_d) / 2a`. */
  function LowerRoot(q: Quadratic, sqrtD: real): real
    requires q.a != 0.0
  {
    (-q.b - sqrtD) / (2.0 * q.a)
  }

  /** `(-b + sqrt_d) / 2a`. */
  function UpperRoot(q: Quadratic, sqrtD: real): real
    requires q.a != 0.0
  {
    (-q.b + sqrtD) / (2.0 * q.a)
  }

  /** The `y` both tangency formulas derive from `x` on the line `p y = t - 2 e x`. */
  function LineY(p: real, e: real, t: real, x: real): real
    requires p != 0.0
  {
    (t - 2.0 * e * x) / p
  }

  /** `p² a + p² b - p² c == 0` with `p != 0` gives `a + b == c`. */
  lemma CancelSquareFactor(p: real, a: real, b: real, c: real)
    requires p != 0.0 && (p * p) * a + (p * p) * b - (p * p) * c == 0.0
    ensures a + b == c
  {
    var k := p * p;
    calc {
      p * (p * (a + b - c));
      k * (a + b - c);
      k * a + k * b - k * c;
      0.0;
      p * 0.0;
    }
    CancelFactor(p, p * (a + b - c), 0.0);
    CancelFactor(p, a + b - c, 0.0);
  }

  lemma SquareOfEqual(w: real, v: real)
    requires w == v
    ensures w * w == v * v
  {
  }

  /** Either root `(-b ± sqrt(d)) / 2a` of a quadratic, with an exact `sqrt(d)`, is a root. */
  lemma QuadraticRoot(q: Quadratic, sqrtD: real, x: real)
    requires q.a != 0.0 && sqrtD * sqrtD == Discriminant(q)
    requires x == LowerRoot(q, sqrtD) || x == UpperRoot(q, sqrtD)
    ensures ValueAt(q, x) == 0.0
  {
    var a, b, c := q.a, q.b, q.c;
    assert x * (2.0 * a) == -b - sqrtD || x * (2.0 * a) == -b + sqrtD;
    var u := 2.0 * a * x + b;
    assert u == sqrtD || u == -sqrtD;
    assert u * u == sqrtD * sqrtD;
    assert u * u == 4.0 * a * (a * x * x + b * x) + b * b;
    assert 4.0 * a * (a * x * x + b * x + c) == 0.0;
  }

  /** Points given by `LineY` lie on the line. */
  lemma OnLine(p: real, e: real, t: real, x: real)
    requires p != 0.0
    ensures p * LineY(p, e, t, x) == t - 2.0 * e * x
  {
  }

  /** Dividing out a non-zero factor. */
  lemma CancelFactor(k: real, u: real, v: real)
    requires k != 0.0 && k * u == k * v
    ensures u == v
  {
    assert k * (u - v) == 0.0;
  }

  /** `(p a)² == p² a²`. */
  lemma ScaledSquare(p: real, a: real)
    ensures (p * a) * (p * a) == (p * p) * (a * a)
  {
  }

  // ------------------------------------------------ find_tangent_circle_center

  /** The constant `t` of `find_tangent_circle_center`: `xp² + yp² - s² + m²`. */
  function TangentT(xp: real, yp: real, s: real, m: real): real
  {
    (xp * xp + yp * yp) - s * s + m * m
  }

  /** The quadratic of `find_tangent_circle_center` for `p = 2 yp`: `a = p² + 4xp²`, `b = -4 xp t`, `c = t² - p² m²`. */
  function TangentQuadratic(xp: real, p: real, t: real, m: real): Quadratic
  {
    Quadratic(p * p + 4.0 * (xp * xp), -4.0 * xp * t, t * t - (p * p) * (m * m))
  }

  lemma TangentLeadingPositive(xp: real, p: real, t: real, m: real)
    requires p != 0.0
    ensures TangentQuadratic(xp, p, t, m).a > 0.0
  {
    calc {
      TangentQuadratic(xp, p, t, m).a;
      p * p + 4.0 * (xp * xp);
    >= p * p;
    > 0.0;
    }
  }

  /** `xn` for a previous centre on the x axis: `(xp² - s² + m²) / 2xp`. */
  function AxisX(xp: real, s: real, m: real): real
    requires xp != 0.0
  {
    (xp * xp - s * s + m * m) / (2.0 * xp)
  }

  /** The radicand of `yn` for a previous centre on the x axis: `s² - (xp - xn)²`. */
  function AxisRadicand(xp: real, s: real, xn: real): real
  {
    s * s - (xp - xn) * (xp - xn)
  }

  /**
   * `find_tangent_circle_center`: centres for `next` that touch `prev` and the
   * main circle, each with the gap `delta`.  The gap-widened distances are
   * `s = rp + rn + delta` to `prev` and `m = R - delta - rn` to the origin.
   * One point when `prev` lies on the x axis, two otherwise.
   */
  function FindTangentCircleCenter(num: Numerics, delta: real, prev: Circle, next: Circle,
                                   mainCircleRadius: real): (r: Option<seq<Point>>)
    ensures r.None? <==>
      || prev.center.None?
      || prev.center.value == Origin
      || (prev.center.value.y != 0.0 &&
          var pc, s, m := prev.center.value, prev.radius + next.radius + delta, mainCircleRadius - delta - next.radius;
          Discriminant(TangentQuadratic(pc.x, 2.0 * pc.y, TangentT(pc.x, pc.y, s, m), m)) < 0.0)
    ensures r.Some? ==> |r.value| == (if prev.center.value.y == 0.0 then 1 else 2)
  {
    match prev.center
    case None => None
    case Some(pc) =>
      var s := prev.radius + next.radius + delta;
      var m := mainCircleRadius - delta - next.radius;
      var t := TangentT(pc.x, pc.y, s, m);
      var p := 2.0 * pc.y;
      if pc.y == 0.0 then
        if pc.x == 0.0 then None
        else
          var xn := AxisX(pc.x, s, m);
          var yn := num.sqrt(AxisRadicand(pc.x, s, xn));
          Some([Point(xn, yn)])
      else
        var q := TangentQuadratic(pc.x, p, t, m);
        var d := Discriminant(q);
        if d < 0.0 then None
        else
          assert q.a > 0.0 by { TangentLeadingPositive(pc.x, p, t, m); }
          var sqrtD := num.sqrt(d);
          var xn1 := LowerRoot(q, sqrtD);
          var xn2 := UpperRoot(q, sqrtD);
          Some([Point(xn1, LineY(p, pc.x, t, xn1)), Point(xn2, LineY(p, pc.x, t, xn2))])
  }

  /**
   * The x-axis branch of `find_tangent_circle_center` takes the root of a
   * negative number, so the code's `yn` is NaN and the centre passes no
   * containment test.
   */
  predicate NaNTangentCenter(delta: real, prev: Circle, next: Circle, mainCircleRadius: real)
  {
    prev.center.Some? && prev.center.value.y == 0.0 && prev.center.value.x != 0.0 &&
    var xp, s := prev.center.value.x, prev.radius + next.radius + delta;
    AxisRadicand(xp, s, AxisX(xp, s, mainCircleRadius - delta - next.radius)) < 0.0
  }

  // ------------------------------------------------ find_third_circle_center

  /** The constant `t` of `find_third_circle_center`: `x1² - x2² + y1² - y2² - s1² + s2²`. */
  function ThirdT(x1: real, y1: real, x2: real, y2: real, s1: real, s2: real): real
  {
    x1 * x1 - x2 * x2 + y1 * y1 - y2 * y2 - s1 * s1 + s2 * s2
  }

  /**
   * The quadratic of `find_third_circle_center` for `p = 2(y1 - y2)` and
   * `e = x1 - x2`: `a = p² + 4e²`, `b = -2 x1 p² + 4 (y1 p - t) e`,
   * `c = p² (x1² + y1² - s1²) - 2 y1 p t + t²`.
   */
  function ThirdQuadratic(x1: real, y1: real, p: real, e: real, t: real, s1: real): Quadratic
  {
    Quadratic(p * p + 4.0 * (e * e),
              -2.0 * x1 * (p * p) + 4.0 * (y1 * p - t) * e,
              (p * p) * (x1 * x1 + y1 * y1 - s1 * s1) - 2.0 * y1 * p * t + t * t)
  }

  lemma ThirdLeadingPositive(x1: real, y1: real, p: real, e: real, t: real, s1: real)
    requires p != 0.0
    ensures ThirdQuadratic(x1, y1, p, e, t, s1).a > 0.0
  {
    calc {
      ThirdQuadratic(x1, y1, p, e, t, s1).a;
      p * p + 4.0 * (e * e);
    >= p * p;
    > 0.0;
    }
  }

  /** The quadratic of `find_third_circle_center` for two circle centres and gap-widened distances. */
  function ThirdQuadraticOf(p1: Point, p2: Point, s1: real, s2: real): Quadratic
  {
    ThirdQuadratic(p1.x, p1.y, 2.0 * (p1.y - p2.y), p1.x - p2.x, ThirdT(p1.x, p1.y, p2.x, p2.y, s1, s2), s1)
  }

  /** The two candidate centres of the general branch: the roots of the quadratic and the matching `y`. */
  function ThirdRoots(num: Numerics, p1: Point, p2: Point, s1: real, s2: real): (roots: (Point, Point))
    requires p1.y != p2.y
  {
    var t := ThirdT(p1.x, p1.y, p2.x, p2.y, s1, s2);
    var p := 2.0 * (p1.y - p2.y);
    var e := p1.x - p2.x;
    var q := ThirdQuadratic(p1.x, p1.y, p, e, t, s1);
    assert q.a > 0.0 by { ThirdLeadingPositive(p1.x, p1.y, p, e, t, s1); }
    var sqrtD := num.sqrt(Discriminant(q));
    var x1 := LowerRoot(q, sqrtD);
    var x2 := UpperRoot(q, sqrtD);
    (Point(x1, LineY(p, e, t, x1)), Point(x2, LineY(p, e, t, x2)))
  }

  /** `x_3` of the branch where both centres lie on one horizontal line, for `u1 = r1 + r3` and `u2 = r2 + r3`. */
  function HorizontalX(x1: real, x2: real, u1: real, u2: real): real
    requires x1 != x2
  {
    ((x1 * x1 - x2 * x2) - u1 * u1 + u2 * u2) / (2.0 * (x1 - x2))
  }

  /** The radicand of `y_3` in the horizontal branch, as the source writes it: `(x1 - x3)² - (r1 + r3)²`. */
  function HorizontalRadicandAsWritten(x1: real, x3: real, u1: real): real
  {
    (x1 - x3) * (x1 - x3) - u1 * u1
  }

  /** The radicand of `y_3` that puts the centre at distance `r1 + r3` from `c1`: `(r1 + r3)² - (x1 - x3)²`. */
  function HorizontalRadicand(x1: real, x3: real, u1: real): real
  {
    u1 * u1 - (x1 - x3) * (x1 - x3)
  }

  /** The centres are too far apart for any circle of radius `r3` to reach both. */
  predicate TooFar(c1: Circle, c2: Circle, r3: real)
    requires c1.center.Some? && c2.center.Some?
  {
    SqDist(c1.center.value, c2.center.value) > Sq(c1.radius + 2.0 * r3 + c2.radius)
  }

  /**
   * When `find_third_circle_center` gives no centre: a centre is missing, the
   * centres are too far apart or coincide, or (centres off one horizontal
   * line) the quadratic has no real root.
   */
  predicate NoThirdCenter(delta: real, c1: Circle, c2: Circle, r3: real)
  {
    || c1.center.None? || c2.center.None?
    || TooFar(c1, c2, r3)
    || c1.center == c2.center
    || (c1.center.value.y != c2.center.value.y &&
        Discriminant(ThirdQuadraticOf(c1.center.value, c2.center.value,
                                      c1.radius + r3 + delta, c2.radius + r3 + delta)) < 0.0)
  }

  /** `p` is the candidate of the general branch nearer to the origin. */
  predicate NearerRoot(num: Numerics, delta: real, c1: Circle, c2: Circle, r3: real, p: Point)
    requires c1.center.Some? && c2.center.Some? && c1.center.value.y != c2.center.value.y
  {
    var roots := ThirdRoots(num, c1.center.value, c2.center.value, c1.radius + r3 + delta, c2.radius + r3 + delta);
    (p == roots.0 || p == roots.1) && SqNorm(p) <= SqNorm(roots.0) && SqNorm(p) <= SqNorm(roots.1)
  }

  /**
   * `find_third_circle_center` as the source writes it, with the sign of the
   * horizontal branch's radicand as in `HorizontalRadicandAsWritten`.
   */
  function FindThirdCircleCenterAsWritten(num: Numerics, delta: real, c1: Circle, c2: Circle, r3: real): (r: Option<Point>)
    ensures r.None? <==> NoThirdCenter(delta, c1, c2, r3)
    ensures r.Some? && c1.center.value.y != c2.center.value.y ==> NearerRoot(num, delta, c1, c2, r3, r.value)
  {
    if c1.center.Some? && c2.center.Some? then
      var p1, p2 := c1.center.value, c2.center.value;
      if TooFar(c1, c2, r3) then None
      else if p1.y == p2.y then
        if p1.x == p2.x then None
        else
          var x3 := HorizontalX(p1.x, p2.x, c1.radius + r3, c2.radius + r3);
          Some(Point(x3, num.sqrt(HorizontalRadicandAsWritten(p1.x, x3, c1.radius + r3)) + p1.y))
      else
        var s1, s2 := c1.radius + r3 + delta, c2.radius + r3 + delta;
        if Discriminant(ThirdQuadraticOf(p1, p2, s1, s2)) < 0.0 then None
        else
          var (q1, q2) := ThirdRoots(num, p1, p2, s1, s2);
          Some(if SqNorm(q1) < SqNorm(q2) then q1 else q2)
    else None
  }

  /**
   * `find_third_circle_center`, with the horizontal branch's radicand
   * corrected to `HorizontalRadicand`: the centre of a circle of radius `r3`
   * touching `c1` and `c2`, nearer to the origin of the two candidates.
   * `None` when a centre is missing, the centres are too far apart, they
   * coincide, or the quadratic has no real root.
   */
  function FindThirdCircleCenter(num: Numerics, delta: real, c1: Circle, c2: Circle, r3: real): (r: Option<Point>)
    ensures r.None? <==> NoThirdCenter(delta, c1, c2, r3)
    ensures r.Some? && c1.center.value.y != c2.center.value.y ==> NearerRoot(num, delta, c1, c2, r3, r.value)
  {
    if c1.center.Some? && c2.center.Some? then
      var p1, p2 := c1.center.value, c2.center.value;
      if TooFar(c1, c2, r3) then None
      else if p1.y == p2.y then
        if p1.x == p2.x then None
        else
          var x3 := HorizontalX(p1.x, p2.x, c1.radius + r3, c2.radius + r3);
          Some(Point(x3, num.sqrt(HorizontalRadicand(p1.x, x3, c1.radius + r3)) + p1.y))
      else
        var s1, s2 := c1.radius + r3 + delta, c2.radius + r3 + delta;
        if Discriminant(ThirdQuadraticOf(p1, p2, s1, s2)) < 0.0 then None
        else
          var (q1, q2) := ThirdRoots(num, p1, p2, s1, s2);
          Some(if SqNorm(q1) < SqNorm(q2) then q1 else q2)
    else None
  }

  /**
   * The horizontal branch of the finder chosen by `corrected` takes the root
   * of a negative number, so the code's `y_3` is NaN.  Every comparison with
   * NaN is false, so such a centre passes no containment test.
   */
  predicate NaNThirdCenter(corrected: bool, c1: Circle, c2: Circle, r3: real)
  {
    c1.center.Some? && c2.center.Some? && !TooFar(c1, c2, r3) &&
    c1.center.value.y == c2.center.value.y && c1.center.value.x != c2.center.value.x &&
    var x1 := c1.center.value.x;
    var x3 := HorizontalX(x1, c2.center.value.x, c1.radius + r3, c2.radius + r3);
    (if corrected then HorizontalRadicand(x1, x3, c1.radius + r3) else HorizontalRadicandAsWritten(x1, x3, c1.radius + r3)) < 0.0
  }

  /**
   * The finder the heuristic calls: `find_third_circle_center` as written
   * when `corrected` is false, with the corrected radicand when it is true.
   */
  function ThirdCircleCenter(num: Numerics, delta: real, corrected: bool, c1: Circle, c2: Circle, r3: real): (r: Option<Point>)
    ensures r.None? <==> NoThirdCenter(delta, c1, c2, r3)
    ensures r.Some? && c1.center.value.y != c2.center.value.y ==> NearerRoot(num, delta, c1, c2, r3, r.value)
  {
    if corrected then FindThirdCircleCenter(num, delta, c1, c2, r3)
    else FindThirdCircleCenterAsWritten(num, delta, c1, c2, r3)
  }

  // ------------------------------------------------ eval_alpha

  /** A score that is either `-inf` or finite; `-inf` is below every finite score. */
  datatype Alpha = NegInfinity | Finite(value: real)

  predicate AlphaLess(a: Alpha, b: Alpha)
  {
    match (a, b)
    case (NegInfinity, Finite(_)) => true
    case (Finite(x), Finite(y)) => x < y
    case _ => false
  }

  /** The law-of-cosines quotient `(a² + b² - c²) / 2ab`. */
  function CosineScore(a: real, b: real, c: real): real
    requires a > 0.0 && b > 0.0
  {
    assert 2.0 * a * b > 0.0 by { MulLeftStrict(2.0 * a, 0.0, b); }
    (a * a + b * b - c * c) / (2.0 * a * b)
  }

  /**
   * `eval_alpha`: the cosine, by the law of cosines, of the angle at the new
   * centre in the triangle with sides `r1 + r3 + delta`, `r2 + r3 + delta` and
   * `distance(c1, c2) + delta`; `-inf` when a centre is missing (the distance
   * is infinite).  The sides `a` and `b` must be positive: the source divides
   * by `2ab`.
   */
  function EvalAlpha(num: Numerics, delta: real, c1: Circle, c2: Circle, r3: real): (r: Alpha)
    requires c1.radius + r3 + delta > 0.0 && c2.radius + r3 + delta > 0.0
    ensures r.NegInfinity? <==> c1.center.None? || c2.center.None?
    ensures r.Finite? ==>
      r.value == CosineScore(c1.radius + r3 + delta, c2.radius + r3 + delta, Distance(c1, c2, num.sqrt).value + delta)
  {
    match Distance(c1, c2, num.sqrt)
    case None => NegInfinity
    case Some(dist) => Finite(CosineScore(c1.radius + r3 + delta, c2.radius + r3 + delta, dist + delta))
  }

  // ------------------------------------------------ properties

  /** For `sin² + cos² == 1`, the rotated point lies at distance `|yCoord|` from the origin. */
  lemma RotatedPointOnCircle(num: Numerics, yCoord: real, angle: real)
    requires IsUnitCircle(num)
    ensures SqNorm(RotatedPoint(num, yCoord, angle)) == Sq(yCoord)
  {
    var s, c := num.sin(angle), num.cos(angle);
    assert s * s + c * c == 1.0;
    calc {
      SqNorm(RotatedPoint(num, yCoord, angle));
      (yCoord * s) * (yCoord * s) + (yCoord * c) * (yCoord * c);
      yCoord * yCoord * (s * s + c * c);
      yCoord * yCoord;
    }
  }

  /**
   * Consecutive rim circles of `pack_first_layer` touch with the gap `delta`:
   * the previous centre at `prevAngle` and the next at `prevAngle` plus
   * `AngleBetweenPrevNextCircles` are `rp + rn + delta` apart, provided the
   * cosine of the angle between them is the law-of-cosines quotient of the
   * sides `R - rp - delta`, `rp + rn + delta` and `R - rn - delta`, as it is
   * for an exact `acos`, `sin` and `cos`.
   */
  lemma RimNeighboursTouch(num: Numerics, delta: real, prevRadius: real, nextRadius: real,
                           mainCircleRadius: real, prevAngle: real)
    requires IsUnitCircle(num)
    requires mainCircleRadius - prevRadius - delta > 0.0 && mainCircleRadius - nextRadius - delta > 0.0
    requires var nextAngle := prevAngle + AngleBetweenPrevNextCircles(num, delta, prevRadius, nextRadius, mainCircleRadius);
      num.sin(prevAngle) * num.sin(nextAngle) + num.cos(prevAngle) * num.cos(nextAngle) ==
      CosineScore(mainCircleRadius - prevRadius - delta, mainCircleRadius - nextRadius - delta, prevRadius + nextRadius + delta)
    ensures var nextAngle := prevAngle + AngleBetweenPrevNextCircles(num, delta, prevRadius, nextRadius, mainCircleRadius);
      SqDist(RotatedPoint(num, mainCircleRadius - prevRadius - delta, prevAngle),
             RotatedPoint(num, mainCircleRadius - nextRadius - delta, nextAngle)) == Sq(prevRadius + nextRadius + delta)
  {
    var nextAngle := prevAngle + AngleBetweenPrevNextCircles(num, delta, prevRadius, nextRadius, mainCircleRadius);
    var a, b, c := mainCircleRadius - prevRadius - delta, prevRadius + nextRadius + delta, mainCircleRadius - nextRadius - delta;
    var s1, c1, s2, c2 := num.sin(prevAngle), num.cos(prevAngle), num.sin(nextAngle), num.cos(nextAngle);
    assert s1 * s1 + c1 * c1 == 1.0 && s2 * s2 + c2 * c2 == 1.0;
    CosineScoreScaled(a, c, b);
    ChordLength(a, c, s1, c1, s2, c2);
  }

  /** Multiplying the law-of-cosines quotient back by its denominator. */
  lemma CosineScoreScaled(a: real, c: real, b: real)
    requires a > 0.0 && c > 0.0
    ensures 2.0 * a * c * CosineScore(a, c, b) == a * a + c * c - b * b
  {
    var k := 2.0 * a * c;
    assert k > 0.0 by { MulLeftStrict(2.0 * a, 0.0, c); }
    assert k * ((a * a + c * c - b * b) / k) == a * a + c * c - b * b;
  }

  /** The chord between points at distances `a` and `c` on unit directions: `a² + c² - 2ac` times the cosine between them. */
  lemma ChordLength(a: real, c: real, s1: real, c1: real, s2: real, c2: real)
    requires s1 * s1 + c1 * c1 == 1.0 && s2 * s2 + c2 * c2 == 1.0
    ensures (a * s1 - c * s2) * (a * s1 - c * s2) + (a * c1 - c * c2) * (a * c1 - c * c2) ==
      a * a + c * c - 2.0 * a * c * (s1 * s2 + c1 * c2)
  {
    calc {
      (a * s1 - c * s2) * (a * s1 - c * s2) + (a * c1 - c * c2) * (a * c1 - c * c2);
      a * a * (s1 * s1 + c1 * c1) + c * c * (s2 * s2 + c2 * c2) - 2.0 * a * c * (s1 * s2 + c1 * c2);
      a * a + c * c - 2.0 * a * c * (s1 * s2 + c1 * c2);
    }
  }

  /** The quadratic of `find_tangent_circle_center`, evaluated at `x`, as `p² x² + (t - 2 xp x)² - p² m²`. */
  lemma TangentQuadraticAsSquares(xp: real, p: real, t: real, m: real, x: real)
    ensures ValueAt(TangentQuadratic(xp, p, t, m), x)
         == (p * p) * (x * x) + (t - 2.0 * xp * x) * (t - 2.0 * xp * x) - (p * p) * (m * m)
  {
  }

  /** The root of the quadratic of `find_tangent_circle_center`, on its line, lies at distance `m` from the origin. */
  lemma TangentRootOnMainCircle(xp: real, p: real, t: real, m: real, x: real, y: real)
    requires p != 0.0
    requires ValueAt(TangentQuadratic(xp, p, t, m), x) == 0.0
    requires y == LineY(p, xp, t, x)
    ensures x * x + y * y == m * m
  {
    OnLine(p, xp, t, x);
    TangentQuadraticAsSquares(xp, p, t, m, x);
    SquareOfEqual(t - 2.0 * xp * x, p * y);
    ScaledSquare(p, y);
    CancelSquareFactor(p, x * x, y * y, m * m);
  }

  /** A point on the line at distance `m` from the origin lies at distance `s` from `(xp, yp)`. */
  lemma TangentRootOnPrevCircle(xp: real, yp: real, p: real, t: real, s: real, m: real, x: real, y: real)
    requires p == 2.0 * yp && p != 0.0
    requires t == TangentT(xp, yp, s, m)
    requires y == LineY(p, xp, t, x)
    requires x * x + y * y == m * m
    ensures (x - xp) * (x - xp) + (y - yp) * (y - yp) == s * s
  {
    OnLine(p, xp, t, x);
    assert 2.0 * (xp * x + yp * y) == t;
    calc {
      (x - xp) * (x - xp) + (y - yp) * (y - yp);
      (x * x + y * y) - 2.0 * (xp * x + yp * y) + (xp * xp + yp * yp);
      s * s;
    }
  }

  /**
   * The root of the quadratic of `find_tangent_circle_center`, on its line,
   * lies at distance `m` from the origin and `s` from `(xp, yp)`.
   */
  lemma TangentPointTouches(xp: real, yp: real, p: real, t: real, s: real, m: real, x: real, y: real)
    requires p == 2.0 * yp && p != 0.0
    requires t == TangentT(xp, yp, s, m)
    requires ValueAt(TangentQuadratic(xp, p, t, m), x) == 0.0
    requires y == LineY(p, xp, t, x)
    ensures SqNorm(Point(x, y)) == Sq(m)
    ensures SqDist(Point(x, y), Point(xp, yp)) == Sq(s)
  {
    TangentRootOnMainCircle(xp, p, t, m, x, y);
    TangentRootOnPrevCircle(xp, yp, p, t, s, m, x, y);
  }

  /**
   * With an exact square root, both points `find_tangent_circle_center`
   * returns for a previous centre off the x axis touch that circle and the
   * main circle, each with the gap `delta`.
   */
  lemma TangentCentersTouch(num: Numerics, delta: real, prev: Circle, next: Circle, mainCircleRadius: real)
    requires IsSqrt(num.sqrt)
    requires prev.center.Some? && prev.center.value.y != 0.0
    requires FindTangentCircleCenter(num, delta, prev, next, mainCircleRadius).Some?
    ensures var points := FindTangentCircleCenter(num, delta, prev, next, mainCircleRadius).value;
      forall k :: 0 <= k < |points| ==>
        SqNorm(points[k]) == Sq(mainCircleRadius - delta - next.radius) &&
        SqDist(points[k], prev.center.value) == Sq(prev.radius + next.radius + delta)
  {
    var pc := prev.center.value;
    var s := prev.radius + next.radius + delta;
    var m := mainCircleRadius - delta - next.radius;
    var t := TangentT(pc.x, pc.y, s, m);
    var p := 2.0 * pc.y;
    var q := TangentQuadratic(pc.x, p, t, m);
    var sqrtD := num.sqrt(Discriminant(q));
    TangentLeadingPositive(pc.x, p, t, m);
    var points := FindTangentCircleCenter(num, delta, prev, next, mainCircleRadius).value;
    var x1, x2 := LowerRoot(q, sqrtD), UpperRoot(q, sqrtD);
    assert points == [Point(x1, LineY(p, pc.x, t, x1)), Point(x2, LineY(p, pc.x, t, x2))];
    QuadraticRoot(q, sqrtD, x1);
    TangentPointTouches(pc.x, pc.y, p, t, s, m, x1, LineY(p, pc.x, t, x1));
    QuadraticRoot(q, sqrtD, x2);
    TangentPointTouches(pc.x, pc.y, p, t, s, m, x2, LineY(p, pc.x, t, x2));
  }

  /** The point on the axis branch, for an exact root `yn` of its radicand, lies at distance `m` from the origin and `s` from `(xp, 0)`. */
  lemma AxisPointTouches(xp: real, s: real, m: real, xn: real, yn: real)
    requires xp != 0.0 && xn == AxisX(xp, s, m)
    requires yn * yn == AxisRadicand(xp, s, xn)
    ensures xn * xn + yn * yn == m * m
    ensures (xn - xp) * (xn - xp) + (yn - 0.0) * (yn - 0.0) == s * s
  {
    assert 2.0 * xp * xn == xp * xp - s * s + m * m;
    calc {
      xn * xn + yn * yn;
      xn * xn + s * s - (xp - xn) * (xp - xn);
      s * s - xp * xp + 2.0 * xp * xn;
      m * m;
    }
  }

  /**
   * With an exact square root and a non-negative radicand, the point
   * `find_tangent_circle_center` returns for a previous centre on the x axis
   * touches both that circle and the main circle, each with the gap `delta`.
   */
  lemma TangentCenterOnAxisTouches(num: Numerics, delta: real, prev: Circle, next: Circle, mainCircleRadius: real)
    requires IsSqrt(num.sqrt)
    requires prev.center.Some? && prev.center.value.y == 0.0 && prev.center.value.x != 0.0
    requires var xp := prev.center.value.x;
      var s := prev.radius + next.radius + delta;
      var xn := AxisX(xp, s, mainCircleRadius - delta - next.radius);
      AxisRadicand(xp, s, xn) >= 0.0
    ensures var q := FindTangentCircleCenter(num, delta, prev, next, mainCircleRadius).value[0];
      SqNorm(q) == Sq(mainCircleRadius - delta - next.radius) &&
      SqDist(q, prev.center.value) == Sq(prev.radius + next.radius + delta)
  {
    var pc := prev.center.value;
    var s := prev.radius + next.radius + delta;
    var m := mainCircleRadius - delta - next.radius;
    var xn := AxisX(pc.x, s, m);
    var yn := num.sqrt(AxisRadicand(pc.x, s, xn));
    assert FindTangentCircleCenter(num, delta, prev, next, mainCircleRadius).value[0] == Point(xn, yn);
    AxisPointTouches(pc.x, s, m, xn, yn);
  }

  /**
   * The quadratic of `find_third_circle_center`, evaluated at `x`, as
   * `p²(x - x1)² + (t - p y1 - 2ex)² - p² s1²`.
   */
  lemma ThirdQuadraticAsSquares(x1: real, y1: real, p: real, e: real, t: real, s1: real, x: real)
    ensures ValueAt(ThirdQuadratic(x1, y1, p, e, t, s1), x)
         == (p * p) * ((x - x1) * (x - x1)) + (t - p * y1 - 2.0 * e * x) * (t - p * y1 - 2.0 * e * x) - (p * p) * (s1 * s1)
  {
  }

  /**
   * The root of the quadratic of `find_third_circle_center`, on its line,
   * lies at distance `s1` from `(x1, y1)` and `s2` from `(x2, y2)`.
   */
  lemma ThirdPointTouches(x1: real, y1: real, x2: real, y2: real, p: real, e: real, t: real,
                          s1: real, s2: real, x: real, y: real)
    requires p == 2.0 * (y1 - y2) && p != 0.0 && e == x1 - x2
    requires t == ThirdT(x1, y1, x2, y2, s1, s2)
    requires ValueAt(ThirdQuadratic(x1, y1, p, e, t, s1), x) == 0.0
    requires y == LineY(p, e, t, x)
    ensures (x - x1) * (x - x1) + (y - y1) * (y - y1) == s1 * s1
    ensures (x - x2) * (x - x2) + (y - y2) * (y - y2) == s2 * s2
  {
    ThirdRootTouchesFirst(x1, y1, p, e, t, s1, x, y);
    ThirdRootTouchesSecond(x1, y1, x2, y2, p, e, t, s1, s2, x, y);
  }

  /** The root on the line lies at distance `s1` from `(x1, y1)`. */
  lemma ThirdRootTouchesFirst(x1: real, y1: real, p: real, e: real, t: real, s1: real, x: real, y: real)
    requires p != 0.0
    requires ValueAt(ThirdQuadratic(x1, y1, p, e, t, s1), x) == 0.0
    requires y == LineY(p, e, t, x)
    ensures (x - x1) * (x - x1) + (y - y1) * (y - y1) == s1 * s1
  {
    ThirdQuadraticAsSquares(x1, y1, p, e, t, s1, x);
    var pp := p * p;
    var dx, dy := (x - x1) * (x - x1), (y - y1) * (y - y1);
    var w := t - p * y1 - 2.0 * e * x;
    OnLine(p, e, t, x);
    assert w == p * (y - y1);
    ScaledSquare(p, y - y1);
    assert w * w == pp * dy;
    assert pp * dx + w * w - pp * (s1 * s1) == 0.0;
    CancelSquareFactor(p, dx, dy, s1 * s1);
  }

  /** A point on the line at distance `s1` from `(x1, y1)` lies at distance `s2` from `(x2, y2)`: the line is the difference of the two circle equations. */
  lemma ThirdRootTouchesSecond(x1: real, y1: real, x2: real, y2: real, p: real, e: real, t: real,
                               s1: real, s2: real, x: real, y: real)
    requires p == 2.0 * (y1 - y2) && p != 0.0 && e == x1 - x2
    requires t == ThirdT(x1, y1, x2, y2, s1, s2)
    requires y == LineY(p, e, t, x)
    requires (x - x1) * (x - x1) + (y - y1) * (y - y1) == s1 * s1
    ensures (x - x2) * (x - x2) + (y - y2) * (y - y2) == s2 * s2
  {
    OnLine(p, e, t, x);
    var dx, dy := (x - x1) * (x - x1), (y - y1) * (y - y1);
    var dx2, dy2 := (x - x2) * (x - x2), (y - y2) * (y - y2);
    assert dx2 - dx == 2.0 * e * x - (x1 * x1 - x2 * x2);
    assert dy2 - dy == p * y - (y1 * y1 - y2 * y2);
    assert 2.0 * e * x + p * y == t;
  }

  /**
   * With an exact square root, the centre `find_third_circle_center` returns
   * for centres not on one horizontal line touches both circles with the gap
   * `delta`.
   */
  lemma ThirdCenterTouches(num: Numerics, delta: real, c1: Circle, c2: Circle, r3: real)
    requires IsSqrt(num.sqrt)
    requires FindThirdCircleCenter(num, delta, c1, c2, r3).Some?
    requires c1.center.value.y != c2.center.value.y
    ensures var q := FindThirdCircleCenter(num, delta, c1, c2, r3).value;
      SqDist(q, c1.center.value) == Sq(c1.radius + r3 + delta) &&
      SqDist(q, c2.center.value) == Sq(c2.radius + r3 + delta)
  {
    var p1, p2 := c1.center.value, c2.center.value;
    var s1, s2 := c1.radius + r3 + delta, c2.radius + r3 + delta;
    ThirdRootsTouch(num, p1, p2, s1, s2);
  }

  /** Both candidate centres of the general branch are at distance `s1` from `p1` and `s2` from `p2`. */
  lemma ThirdRootsTouch(num: Numerics, p1: Point, p2: Point, s1: real, s2: real)
    requires IsSqrt(num.sqrt) && p1.y != p2.y
    requires Discriminant(ThirdQuadraticOf(p1, p2, s1, s2)) >= 0.0
    ensures var roots := ThirdRoots(num, p1, p2, s1, s2);
      && SqDist(roots.0, p1) == Sq(s1) && SqDist(roots.0, p2) == Sq(s2)
      && SqDist(roots.1, p1) == Sq(s1) && SqDist(roots.1, p2) == Sq(s2)
  {
    var q := ThirdQuadraticOf(p1, p2, s1, s2);
    ThirdLeadingPositive(p1.x, p1.y, 2.0 * (p1.y - p2.y), p1.x - p2.x, ThirdT(p1.x, p1.y, p2.x, p2.y, s1, s2), s1);
    var sqrtD := num.sqrt(Discriminant(q));
    var roots := ThirdRoots(num, p1, p2, s1, s2);
    QuadraticRoot(q, sqrtD, roots.0.x);
    QuadraticRoot(q, sqrtD, roots.1.x);
    RootTouches(p1, p2, s1, s2, roots.0.x, roots.0.y);
    RootTouches(p1, p2, s1, s2, roots.1.x, roots.1.y);
  }

  /** A root `x` of the general branch's quadratic, with `y` on the line, touches both widened circles. */
  lemma RootTouches(p1: Point, p2: Point, s1: real, s2: real, x: real, y: real)
    requires p1.y != p2.y && ValueAt(ThirdQuadraticOf(p1, p2, s1, s2), x) == 0.0
    requires y == LineY(2.0 * (p1.y - p2.y), p1.x - p2.x, ThirdT(p1.x, p1.y, p2.x, p2.y, s1, s2), x)
    ensures SqDist(Point(x, y), p1) == Sq(s1) && SqDist(Point(x, y), p2) == Sq(s2)
  {
    ThirdPointTouches(p1.x, p1.y, p2.x, p2.y, 2.0 * (p1.y - p2.y), p1.x - p2.x,
                      ThirdT(p1.x, p1.y, p2.x, p2.y, s1, s2), s1, s2, x, y);
    SqDistOf(x, y, p1, s1);
    SqDistOf(x, y, p2, s2);
  }

  lemma SqDistOf(x: real, y: real, c: Point, s: real)
    requires (x - c.x) * (x - c.x) + (y - c.y) * (y - c.y) == s * s
    ensures SqDist(Point(x, y), c) == Sq(s)
  {
  }

  /**
   * For an exact root `sr` of the corrected radicand, the horizontal branch's
   * point `(x3, y + sr)` lies at distance `u1` from `(x1, y)` and `u2` from
   * `(x2, y)`.
   */
  lemma HorizontalPointTouches(x1: real, x2: real, u1: real, u2: real, x3: real, sr: real)
    requires x1 != x2 && x3 == HorizontalX(x1, x2, u1, u2)
    requires sr * sr == HorizontalRadicand(x1, x3, u1)
    ensures (x3 - x1) * (x3 - x1) + sr * sr == u1 * u1
    ensures (x3 - x2) * (x3 - x2) + sr * sr == u2 * u2
  {
    assert 2.0 * (x1 - x2) * x3 == (x1 * x1 - x2 * x2) - u1 * u1 + u2 * u2;
    calc {
      (x3 - x2) * (x3 - x2) + sr * sr;
      (x3 - x2) * (x3 - x2) + u1 * u1 - (x1 - x3) * (x1 - x3);
      u2 * u2;
    }
  }

  /**
   * With an exact square root and a non-negative radicand, the corrected
   * horizontal branch gives a centre at distance `r1 + r3` from `c1` and
   * `r2 + r3` from `c2` (this branch adds no gap `delta`).
   */
  lemma ThirdCenterOnLineTouches(num: Numerics, delta: real, c1: Circle, c2: Circle, r3: real)
    requires IsSqrt(num.sqrt)
    requires FindThirdCircleCenter(num, delta, c1, c2, r3).Some?
    requires c1.center.value.y == c2.center.value.y
    requires var x3 := HorizontalX(c1.center.value.x, c2.center.value.x, c1.radius + r3, c2.radius + r3);
      HorizontalRadicand(c1.center.value.x, x3, c1.radius + r3) >= 0.0
    ensures var q := FindThirdCircleCenter(num, delta, c1, c2, r3).value;
      SqDist(q, c1.center.value) == Sq(c1.radius + r3) &&
      SqDist(q, c2.center.value) == Sq(c2.radius + r3)
  {
    var p1, p2 := c1.center.value, c2.center.value;
    var u1, u2 := c1.radius + r3, c2.radius + r3;
    var x3 := HorizontalX(p1.x, p2.x, u1, u2);
    var sr := num.sqrt(HorizontalRadicand(p1.x, x3, u1));
    var q := FindThirdCircleCenter(num, delta, c1, c2, r3).value;
    assert q == Point(x3, sr + p1.y);
    HorizontalPointTouches(p1.x, p2.x, u1, u2, x3, sr);
    assert q.y - p1.y == sr && q.y - p2.y == sr;
  }

  /**
   * Two unit circles centred at (0, 0) and (3, 0) and a third of radius 1:
   * the horizontal branch puts `x_3` at 1.5, where the source's radicand is
   * -1.75 (its square root is NaN in f64), while the corrected radicand is
   * 1.75, whose root gives a circle touching both.
   */
  lemma HorizontalRadicandSignFlipped()
    ensures HorizontalX(0.0, 3.0, 2.0, 2.0) == 1.5
    ensures HorizontalRadicandAsWritten(0.0, 1.5, 2.0) == -1.75
    ensures HorizontalRadicand(0.0, 1.5, 2.0) == 1.75
    ensures !TooFar(NewCircle(1.0, Point(0.0, 0.0)), NewCircle(1.0, Point(3.0, 0.0)), 1.0)
  {
    assert HorizontalX(0.0, 3.0, 2.0, 2.0) == -9.0 / -6.0;
  }

  /**
   * As written, a positive radicand puts the horizontal branch's point
   * strictly farther than `r1 + r3` from `c1`, for every exact square root,
   * so that branch never returns a tangent centre except at a zero radicand;
   * a negative radicand has no real root at all.
   */
  lemma AsWrittenMissesTangency(num: Numerics, delta: real, c1: Circle, c2: Circle, r3: real)
    requires IsSqrt(num.sqrt)
    requires FindThirdCircleCenterAsWritten(num, delta, c1, c2, r3).Some?
    requires c1.center.value.y == c2.center.value.y
    requires var x3 := HorizontalX(c1.center.value.x, c2.center.value.x, c1.radius + r3, c2.radius + r3);
      HorizontalRadicandAsWritten(c1.center.value.x, x3, c1.radius + r3) > 0.0
    ensures SqDist(FindThirdCircleCenterAsWritten(num, delta, c1, c2, r3).value, c1.center.value) > Sq(c1.radius + r3)
  {
    var p1, p2 := c1.center.value, c2.center.value;
    var u1 := c1.radius + r3;
    var x3 := HorizontalX(p1.x, p2.x, u1, c2.radius + r3);
    var rad := HorizontalRadicandAsWritten(p1.x, x3, u1);
    var sr := num.sqrt(rad);
    assert sr * sr == rad;
    var q := FindThirdCircleCenterAsWritten(num, delta, c1, c2, r3).value;
    assert q == Point(x3, sr + p1.y);
    assert q.y - p1.y == sr;
    var d := (p1.x - x3) * (p1.x - x3);
    assert (x3 - p1.x) * (x3 - p1.x) == d;
    assert rad == d - u1 * u1 && d > u1 * u1;
    calc {
      SqDist(q, p1);
      d + sr * sr;
      d + d - u1 * u1;
    }
  }

  /** `eval_alpha` does not depend on the order of the two circles. */
  lemma EvalAlphaSymmetric(num: Numerics, delta: real, c1: Circle, c2: Circle, r3: real)
    requires c1.radius + r3 + delta > 0.0 && c2.radius + r3 + delta > 0.0
    ensures EvalAlpha(num, delta, c1, c2, r3) == EvalAlpha(num, delta, c2, c1, r3)
  {
    if c1.center.Some? && c2.center.Some? {
      assert SqDist(c1.center.value, c2.center.value) == SqDist(c2.center.value, c1.center.value);
      var c := Distance(c1, c2, num.sqrt).value + delta;
      assert Distance(c2, c1, num.sqrt).value + delta == c;
      CosineScoreSymmetric(c1.radius + r3 + delta, c2.radius + r3 + delta, c);
    }
  }

  lemma CosineScoreSymmetric(a: real, b: real, c: real)
    requires a > 0.0 && b > 0.0
    ensures CosineScore(a, b, c) == CosineScore(b, a, c)
  {
    assert 2.0 * a * b == 2.0 * b * a;
    assert a * a + b * b - c * c == b * b + a * a - c * c;
  }

  /** A third side at least as long gives a score no larger: the score does not rise as the two placed circles move apart. */
  lemma CosineScoreFalls(a: real, b: real, c: real, c': real)
    requires a > 0.0 && b > 0.0 && 0.0 <= c <= c'
    ensures CosineScore(a, b, c') <= CosineScore(a, b, c)
  {
    SquareMono(c, c');
    var k := 2.0 * a * b;
    assert k > 0.0 by { MulLeftStrict(2.0 * a, 0.0, b); }
    DivideMono(a * a + b * b - c' * c', a * a + b * b - c * c, k);
  }

  lemma DivideMono(u: real, v: real, k: real)
    requires k > 0.0 && u <= v
    ensures u / k <= v / k
  {
    var i := 1.0 / k;
    assert i > 0.0;
    assert u / k == u * i && v / k == v * i;
    MulLeftMono(i, u, v);
  }

  /** For an exact square root, two placed pairs with the same radii score lower the farther apart their centres are. */
  lemma EvalAlphaFallsWithDistance(num: Numerics, delta: real, c1: Circle, c2: Circle, d1: Circle, d2: Circle, r3: real)
    requires IsSqrt(num.sqrt)
    requires c1.radius + r3 + delta > 0.0 && c2.radius + r3 + delta > 0.0
    requires d1.radius == c1.radius && d2.radius == c2.radius
    requires c1.center.Some? && c2.center.Some? && d1.center.Some? && d2.center.Some?
    requires Distance(c1, c2, num.sqrt).value + delta >= 0.0
    requires Distance(c1, c2, num.sqrt).value <= Distance(d1, d2, num.sqrt).value
    ensures EvalAlpha(num, delta, d1, d2, r3).value <= EvalAlpha(num, delta, c1, c2, r3).value
  {
    CosineScoreFalls(c1.radius + r3 + delta, c2.radius + r3 + delta,
                     Distance(c1, c2, num.sqrt).value + delta, Distance(d1, d2, num.sqrt).value + delta);
  }
}
