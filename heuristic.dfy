/**
 * The heuristic constructor: a bisection over the main radius around a
 * layered packer.  The packer places circle 0 at the top of the rim, then
 * the large circles along the rim, then one small circle next to each rim
 * circle, then layer after layer of circles tangent to two placed ones.
 *
 * The packer works on a buffer of circles, an `array<Circle>`, that its three
 * stages fill in place.  None of them ever moves a placed circle or changes a
 * radius, each new circle is tested against every placed one when it is
 * placed, and a packing is returned only when it passes the exact validity
 * test.  The random generator behind `swap_circles` becomes the sequence of
 * index pairs it would have drawn.
 */
module Heuristic {
  import opened Wrappers
  import opened Geometry
  import opened Packing
  import opened RealSeq
  import opened Tangency

  // ------------------------------------------------ circle buffers

  /** `after` is `before` with some unplaced circles given centres: no radius changes and no placed circle moves. */
  predicate Extends(before: seq<Circle>, after: seq<Circle>)
  {
    && |after| == |before|
    && forall k :: 0 <= k < |before| ==>
         after[k].radius == before[k].radius && (before[k].center.Some? ==> after[k] == before[k])
  }

  /** No two distinct placed circles overlap by the squared test the packer places with. */
  predicate Separated(cs: seq<Circle>)
  {
    forall i, j :: 0 <= i < |cs| && 0 <= j < |cs| && i != j ==> !OverlapQuad(cs[i], cs[j])
  }

  predicate PositiveCircles(cs: seq<Circle>)
  {
    forall k :: 0 <= k < |cs| ==> cs[k].radius > 0.0
  }

  /** The number of unplaced circles. */
  function Unplaced(cs: seq<Circle>): (n: nat)
    ensures n <= |cs|
  {
    if cs == [] then 0 else (if cs[0].center.None? then 1 else 0) + Unplaced(cs[1..])
  }

  /** `n` unplaced circles of radius zero, as `find` starts its best packing. */
  function Defaults(n: nat): (cs: seq<Circle>)
    ensures |cs| == n && forall k :: 0 <= k < n ==> cs[k] == DefaultCircle
  {
    seq(n, k => DefaultCircle)
  }

  /** `x.ceil()`: the least integer at or above `x`. */
  function Ceil(x: real): (c: real)
    ensures x <= c < x + 1.0
    ensures c == c.Floor as real
  {
    (-((-x).Floor)) as real
  }

  /** Every drawn index pair lies in `[0, n)`, as `gen_range(0..n)` guarantees. */
  predicate InRange(draws: seq<(nat, nat)>, n: nat)
  {
    forall k :: 0 <= k < |draws| ==> draws[k].0 < n && draws[k].1 < n
  }

  /** The radii after `swap_circles` has exchanged the first `k` drawn pairs in turn. */
  function ApplySwaps(rs: seq<real>, draws: seq<(nat, nat)>, k: nat): (r: seq<real>)
    requires InRange(draws, |rs|) && k <= |draws|
    ensures |r| == |rs|
  {
    if k == 0 then rs
    else Swapped(ApplySwaps(rs, draws, k - 1), draws[k - 1].0, draws[k - 1].1)
  }

  /**
   * The free `is_valid_pack`: `false` at the first circle outside the main
   * circle, then at the first overlapping pair `i < j`.
   */
  method IsValidPack(mainCircleRadius: real, circles: seq<Circle>) returns (valid: bool)
    ensures valid == ValidCircles(mainCircleRadius, circles)
  {
    for k := 0 to |circles|
      invariant forall k' :: 0 <= k' < k ==> IsInsideMainCircle(circles[k'], mainCircleRadius)
    {
      if !IsInsideMainCircle(circles[k], mainCircleRadius) {
        return false;
      }
    }
    for i := 0 to |circles|
      invariant forall i', j' :: 0 <= i' < i && i' < j' < |circles| ==> !Overlap(circles[i'], circles[j'])
    {
      for j := i + 1 to |circles|
        invariant forall j' :: i < j' < j ==> !Overlap(circles[i], circles[j'])
      {
        if Overlap(circles[i], circles[j]) {
          return false;
        }
      }
    }
    return true;
  }

  // ------------------------------------------------ properties of the buffers

  lemma ExtendsTransitive(a: seq<Circle>, b: seq<Circle>, c: seq<Circle>)
    requires Extends(a, b) && Extends(b, c)
    ensures Extends(a, c)
  {
  }

  /** Placing a circle that overlaps none of the buffer keeps the buffer separated. */
  lemma PlaceKeepsSeparated(cs: seq<Circle>, i: nat, c: Circle)
    requires i < |cs| && Separated(cs) && !IsOverlapQuad(c, cs)
    ensures Separated(cs[i := c])
  {
    var ds := cs[i := c];
    forall a, b | 0 <= a < |ds| && 0 <= b < |ds| && a != b
      ensures !OverlapQuad(ds[a], ds[b])
    {
      if a == i {
        assert !OverlapQuad(c, cs[b]);
      } else if b == i {
        assert !OverlapQuad(c, cs[a]);
        OverlapSymmetric(c, cs[a]);
      }
    }
  }

  /** Giving an unplaced circle a centre lowers the unplaced count by one. */
  lemma {:induction false} PlaceLowersUnplaced(cs: seq<Circle>, i: nat, c: Circle)
    requires i < |cs| && cs[i].center.None? && c.center.Some?
    ensures Unplaced(cs[i := c]) == Unplaced(cs) - 1
  {
    if i > 0 {
      assert cs[i := c][1..] == cs[1..][i - 1 := c];
      PlaceLowersUnplaced(cs[1..], i - 1, c);
    } else {
      assert cs[i := c][1..] == cs[1..];
    }
  }

  /** A circle unplaced in an extension was unplaced before: extending never raises the unplaced count. */
  lemma {:induction false} ExtendsLowersUnplaced(a: seq<Circle>, b: seq<Circle>)
    requires Extends(a, b)
    ensures Unplaced(b) <= Unplaced(a)
  {
    if a != [] {
      assert Extends(a[1..], b[1..]);
      ExtendsLowersUnplaced(a[1..], b[1..]);
    }
  }

  /** Swapping keeps the sum of the radii, so the initial bound `ceil(sum)` does not depend on the draws. */
  lemma {:induction false} SumApplySwaps(rs: seq<real>, draws: seq<(nat, nat)>, k: nat)
    requires InRange(draws, |rs|) && k <= |draws|
    ensures Sum(ApplySwaps(rs, draws, k)) == Sum(rs)
  {
    if k > 0 {
      var before := ApplySwaps(rs, draws, k - 1);
      SumApplySwaps(rs, draws, k - 1);
      SumSwapped(before, draws[k - 1].0, draws[k - 1].1);
    }
  }

  /** Swaps only permute the radii. */
  lemma {:induction false} ApplySwapsPermutes(rs: seq<real>, draws: seq<(nat, nat)>, k: nat)
    requires InRange(draws, |rs|) && k <= |draws|
    ensures multiset(ApplySwaps(rs, draws, k)) == multiset(rs)
  {
    if k > 0 {
      var before := ApplySwaps(rs, draws, k - 1);
      ApplySwapsPermutes(rs, draws, k - 1);
      SwappedPermutes(before, draws[k - 1].0, draws[k - 1].1, multiset(rs));
    }
  }

  predicate PositiveRadii(rs: seq<real>)
  {
    forall k :: 0 <= k < |rs| ==> rs[k] > 0.0
  }

  /** Applying the first `skip` draws and then the rest is applying them all. */
  lemma {:induction false} ApplySwapsSplit(rs: seq<real>, draws: seq<(nat, nat)>, skip: nat, m: nat)
    requires InRange(draws, |rs|) && skip + m <= |draws|
    ensures InRange(draws[skip..], |ApplySwaps(rs, draws, skip)|)
    ensures ApplySwaps(rs, draws, skip + m) == ApplySwaps(ApplySwaps(rs, draws, skip), draws[skip..], m)
  {
    var rest := draws[skip..];
    assert forall k :: 0 <= k < |rest| ==> rest[k] == draws[skip + k];
    if m > 0 {
      ApplySwapsSplit(rs, draws, skip, m - 1);
      assert rest[m - 1] == draws[skip + m - 1];
    }
  }

  /** `ApplySwapsSplit` for all the draws after the first `skip`. */
  lemma ApplySwapsAfterSkip(rs: seq<real>, draws: seq<(nat, nat)>, skip: nat)
    requires InRange(draws, |rs|) && skip <= |draws|
    ensures InRange(draws[skip..], |ApplySwaps(rs, draws, skip)|)
    ensures ApplySwaps(rs, draws, |draws|) == ApplySwaps(ApplySwaps(rs, draws, skip), draws[skip..], |draws[skip..]|)
  {
    ApplySwapsSplit(rs, draws, skip, |draws| - skip);
  }

  /** A swap keeps every radius positive. */
  lemma SwappedKeepsPositive(rs: seq<real>, i: nat, j: nat)
    requires i < |rs| && j < |rs| && PositiveRadii(rs)
    ensures PositiveRadii(Swapped(rs, i, j))
  {
    var s := Swapped(rs, i, j);
    forall k | 0 <= k < |s|
      ensures s[k] > 0.0
    {
      if k == i {
        assert s[k] == rs[j];
      } else if k == j {
        assert s[k] == rs[i];
      }
    }
  }

  /**
   * What `find` keeps between rounds: a main radius between zero and the
   * starting bound `ceiling`, which is either still the bound with the
   * unplaced defaults, or smaller with a valid packing of it holding the
   * radii `rs`.
   */
  predicate Improved(ceiling: real, rs: seq<real>, mainCircleRadius: real, inner: seq<Circle>)
  {
    && 0.0 <= mainCircleRadius <= ceiling
    && (|| (inner == Defaults(|rs|) && mainCircleRadius == ceiling)
        || (&& mainCircleRadius < ceiling
            && ValidCircles(mainCircleRadius, inner)
            && multiset(Radii(inner)) == multiset(rs)))
  }

  /** A round that keeps its radius and packing, or moves to a smaller radius with a valid packing, keeps `Improved`. */
  lemma ImprovedStep(ceiling: real, rs: seq<real>, mainCircleRadius: real, inner: seq<Circle>,
                     current: seq<real>, mainCircleRadius': real, inner': seq<Circle>)
    requires Improved(ceiling, rs, mainCircleRadius, inner)
    requires multiset(current) == multiset(rs)
    requires 0.0 <= mainCircleRadius' <= mainCircleRadius
    requires mainCircleRadius' == mainCircleRadius ==> inner' == inner
    requires mainCircleRadius' < mainCircleRadius ==> ValidCircles(mainCircleRadius', inner') && Radii(inner') == current
    ensures Improved(ceiling, rs, mainCircleRadius', inner')
  {
  }

  // ------------------------------------------------ what each layer may place

  /** Whether `r` lies in `[1, max_small_circle_radius]`: the radii the rim skips and the small layer places. */
  predicate IsSmall(r: real, maxSmallCircleRadius: real)
  {
    1.0 <= r <= maxSmallCircleRadius
  }

  /** `min(2, n)`: how many following placed circles each placed circle is paired with. */
  function MaxShift(n: nat): nat
  {
    if n < 2 then n else 2
  }

  predicate IndicesIn(placed: seq<nat>, n: nat)
  {
    forall a :: 0 <= a < |placed| ==> placed[a] < n
  }

  /** `p` is one of the centres `find_tangent_circle_center(prev, next)` offers. */
  predicate TangentPointOf(num: Numerics, delta: real, prev: Circle, next: Circle, mainCircleRadius: real, p: Point)
  {
    var points := FindTangentCircleCenter(num, delta, prev, next, mainCircleRadius);
    points.Some? && p in points.value
  }

  /** The tangency formula offers no centre next to a circle that is not placed. */
  lemma TangentFromPlaced(num: Numerics, delta: real, prev: Circle, next: Circle, mainCircleRadius: real, p: Point)
    requires TangentPointOf(num, delta, prev, next, mainCircleRadius, p)
    ensures prev.center.Some?
  {
  }

  /**
   * What the small-circle layer may do to the buffer `init`: it extends it,
   * and every circle `k` it places is small, inside the main circle and at a
   * centre the tangency formula offers next to the rim circle
   * `placed[from[k]]`.
   */
  predicate SmallPlaced(num: Numerics, delta: real, maxSmallCircleRadius: real, init: seq<Circle>, cs: seq<Circle>,
                        placed: seq<nat>, from: seq<nat>, mainCircleRadius: real)
  {
    && Extends(init, cs)
    && |from| == |cs|
    && forall k {:trigger from[k]} :: 0 <= k < |cs| && init[k].center.None? && cs[k].center.Some? ==>
         && IsSmall(cs[k].radius, maxSmallCircleRadius)
         && IsInsideMainCircleQuad(cs[k], mainCircleRadius)
         && from[k] < |placed| && placed[from[k]] < |cs|
         && TangentPointOf(num, delta, cs[placed[from[k]]], init[k], mainCircleRadius, cs[k].center.value)
         && !NaNTangentCenter(delta, cs[placed[from[k]]], init[k], mainCircleRadius)
  }

  /** The placement of `pack_small_circle_layer` next to rim circle `placed[a]` keeps `SmallPlaced`. */
  lemma SmallPlacementKeeps(num: Numerics, delta: real, maxSmallCircleRadius: real, init: seq<Circle>, cs: seq<Circle>,
                            placed: seq<nat>, from: seq<nat>, mainCircleRadius: real, a: nat, i: nat, c: Circle)
    requires SmallPlaced(num, delta, maxSmallCircleRadius, init, cs, placed, from, mainCircleRadius)
    requires a < |placed| && placed[a] < |cs| && i < |cs| && cs[i].center.None?
    requires c.radius == cs[i].radius && c.center.Some? && IsSmall(c.radius, maxSmallCircleRadius)
    requires TangentPointOf(num, delta, cs[placed[a]], cs[i], mainCircleRadius, c.center.value)
    requires IsInsideMainCircleQuad(c, mainCircleRadius) && !NaNTangentCenter(delta, cs[placed[a]], cs[i], mainCircleRadius)
    ensures SmallPlaced(num, delta, maxSmallCircleRadius, init, cs[i := c], placed, from[i := a], mainCircleRadius)
  {
    var ds, from' := cs[i := c], from[i := a];
    assert init[i] == cs[i];
    forall k | 0 <= k < |ds| && init[k].center.None? && ds[k].center.Some?
      ensures TangentPointOf(num, delta, ds[placed[from'[k]]], init[k], mainCircleRadius, ds[k].center.value)
    {
      if k == i {
        assert placed[a] != i;
      } else {
        assert from'[k] == from[k] && ds[k] == cs[k];
        TangentFromPlaced(num, delta, cs[placed[from[k]]], init[k], mainCircleRadius, cs[k].center.value);
        assert placed[from[k]] != i;
      }
    }
  }

  /** The centre finder of the later layers as a function value, so that `OtherPlaced` can be stated for any finder. */
  function ThirdFinder(num: Numerics, delta: real, corrected: bool): (Circle, Circle, real) -> Option<Point>
  {
    (c1: Circle, c2: Circle, r3: real) => ThirdCircleCenter(num, delta, corrected, c1, c2, r3)
  }

  /**
   * What the later layers may do to the buffer `init`: they extend it, and
   * every circle `k` they place is inside the main circle and centred where
   * `third` puts it for the two circles `from[k]`, both placed.
   */
  predicate OtherPlaced(third: (Circle, Circle, real) -> Option<Point>, init: seq<Circle>, cs: seq<Circle>,
                        from: seq<(nat, nat)>, mainCircleRadius: real)
  {
    && Extends(init, cs)
    && |from| == |cs|
    && forall k {:trigger from[k]} :: 0 <= k < |cs| && init[k].center.None? && cs[k].center.Some? ==>
         && IsInsideMainCircleQuad(cs[k], mainCircleRadius)
         && from[k].0 < |cs| && from[k].1 < |cs|
         && cs[from[k].0].center.Some? && cs[from[k].1].center.Some?
         && cs[k].center == third(cs[from[k].0], cs[from[k].1], cs[k].radius)
  }

  /** A placement from two placed circles keeps `OtherPlaced`. */
  lemma OtherPlacementKeeps(third: (Circle, Circle, real) -> Option<Point>, init: seq<Circle>, cs: seq<Circle>,
                            from: seq<(nat, nat)>, mainCircleRadius: real, i: nat, c: Circle, f: nat, g: nat)
    requires OtherPlaced(third, init, cs, from, mainCircleRadius)
    requires i < |cs| && cs[i].center.None? && f < |cs| && g < |cs| && cs[f].center.Some? && cs[g].center.Some?
    requires c.radius == cs[i].radius && c.center.Some? && c.center == third(cs[f], cs[g], c.radius)
    requires IsInsideMainCircleQuad(c, mainCircleRadius)
    ensures OtherPlaced(third, init, cs[i := c], from[i := (f, g)], mainCircleRadius)
  {
    var ds, from' := cs[i := c], from[i := (f, g)];
    forall k | 0 <= k < |ds| && init[k].center.None? && ds[k].center.Some?
      ensures ds[k].center == third(ds[from'[k].0], ds[from'[k].1], ds[k].radius)
    {
      if k != i {
        assert from'[k] == from[k];
        assert from[k].0 != i && from[k].1 != i;
      }
    }
  }

  /**
   * The circle `pack_other_layers` would place at index `i` from the pair of
   * placed circles `placed[pci]` and `placed[(pci + shift) % |placed|]`:
   * `None` when circle `i` is placed, `find_third_circle_center` gives no
   * centre or a NaN one, or the new circle leaves the main circle or
   * overlaps the buffer.
   */
  function Candidate(num: Numerics, delta: real, corrected: bool, cs: seq<Circle>, placed: seq<nat>, pci: nat, i: nat, shift: nat,
                     mainCircleRadius: real): (r: Option<Circle>)
    requires pci < |placed| && i < |cs| && IndicesIn(placed, |cs|)
    ensures var c1, c2 := cs[placed[pci]], cs[placed[(pci + shift) % |placed|]];
      cs[i].center.Some? || NoThirdCenter(delta, c1, c2, cs[i].radius) || NaNThirdCenter(corrected, c1, c2, cs[i].radius) ==> r.None?
    ensures r.Some? ==> var c1, c2 := cs[placed[pci]], cs[placed[(pci + shift) % |placed|]];
      r.value.radius == cs[i].radius && r.value.center == ThirdCircleCenter(num, delta, corrected, c1, c2, cs[i].radius) &&
      r.value.center.Some? && c1.center.Some? && c2.center.Some? &&
      !TooFar(c1, c2, cs[i].radius) && c1.center != c2.center &&
      IsInsideMainCircleQuad(r.value, mainCircleRadius) && (forall k :: 0 <= k < |cs| ==> !OverlapQuad(r.value, cs[k]))
    ensures var c1, c2 := cs[placed[pci]], cs[placed[(pci + shift) % |placed|]];
      cs[i].center.None? && !NoThirdCenter(delta, c1, c2, cs[i].radius) && !NaNThirdCenter(corrected, c1, c2, cs[i].radius) ==>
        var c := NewCircle(cs[i].radius, ThirdCircleCenter(num, delta, corrected, c1, c2, cs[i].radius).value);
        (r == Some(c) <==> IsInsideMainCircleQuad(c, mainCircleRadius) && (forall k :: 0 <= k < |cs| ==> !OverlapQuad(c, cs[k])))
  {
    if cs[i].center.Some? then None
    else
      match ThirdCircleCenter(num, delta, corrected, cs[placed[pci]], cs[placed[(pci + shift) % |placed|]], cs[i].radius)
      case None => None
      case Some(c) =>
        var circle := NewCircle(cs[i].radius, c);
        if IsInsideMainCircleQuad(circle, mainCircleRadius) && !NaNThirdCenter(corrected, cs[placed[pci]], cs[placed[(pci + shift) % |placed|]], cs[i].radius)
           && !IsOverlapQuad(circle, cs)
        then Some(circle) else None
  }

  /**
   * Two unit circles centred at (0, 0) and (3, 0) and an unplaced unit
   * circle: as written the horizontal radicand is negative, so the pair
   * offers no candidate for any `sqrt`; the corrected radicand is not.
   */
  lemma AsWrittenHorizontalPairOffersNothing(num: Numerics, delta: real, mainCircleRadius: real)
    ensures var cs := [NewCircle(1.0, Point(0.0, 0.0)), NewCircle(1.0, Point(3.0, 0.0)), WithRadius(1.0)];
      Candidate(num, delta, false, cs, [0, 1], 0, 2, 1, mainCircleRadius).None? &&
      !NaNThirdCenter(true, cs[0], cs[1], 1.0)
  {
    var cs := [NewCircle(1.0, Point(0.0, 0.0)), NewCircle(1.0, Point(3.0, 0.0)), WithRadius(1.0)];
    HorizontalRadicandSignFlipped();
    assert NaNThirdCenter(false, cs[0], cs[1], 1.0);
  }

  /** `eval_alpha` of the pair `placed[pci]`, `placed[(pci + shift) % |placed|]` for the radius of circle `i`. */
  function Score(num: Numerics, delta: real, cs: seq<Circle>, placed: seq<nat>, pci: nat, i: nat, shift: nat): Alpha
    requires pci < |placed| && i < |cs| && IndicesIn(placed, |cs|)
    requires PositiveCircles(cs) && delta >= 0.0
  {
    EvalAlpha(num, delta, cs[placed[pci]], cs[placed[(pci + shift) % |placed|]], cs[i].radius)
  }

  /**
   * Placing an admissible candidate keeps `OtherPlaced` (with the pair it came
   * from as witness), lowers the unplaced count by one, keeps the radii and
   * keeps a separated buffer separated.
   */
  lemma OtherLayerPlacement(num: Numerics, delta: real, corrected: bool, init: seq<Circle>, cs: seq<Circle>, from: seq<(nat, nat)>,
                            placed: seq<nat>, pci: nat, shift: nat, index: nat, c: Circle, mainCircleRadius: real)
    requires pci < |placed| && index < |cs| && IndicesIn(placed, |cs|)
    requires OtherPlaced(ThirdFinder(num, delta, corrected), init, cs, from, mainCircleRadius)
    requires Candidate(num, delta, corrected, cs, placed, pci, index, shift, mainCircleRadius) == Some(c)
    ensures OtherPlaced(ThirdFinder(num, delta, corrected), init, cs[index := c],
                        from[index := (placed[pci], placed[(pci + shift) % |placed|])], mainCircleRadius)
    ensures Unplaced(cs[index := c]) == Unplaced(cs) - 1
    ensures Extends(cs, cs[index := c])
    ensures Separated(cs) ==> Separated(cs[index := c])
    ensures PositiveCircles(cs) ==> PositiveCircles(cs[index := c])
  {
    var f, g := placed[pci], placed[(pci + shift) % |placed|];
    var third := ThirdFinder(num, delta, corrected);
    assert third(cs[f], cs[g], cs[index].radius) == ThirdCircleCenter(num, delta, corrected, cs[f], cs[g], cs[index].radius);
    OtherPlacementKeeps(third, init, cs, from, mainCircleRadius, index, c, f, g);
    PlaceLowersUnplaced(cs, index, c);
    if Separated(cs) {
      PlaceKeepsSeparated(cs, index, c);
    }
  }

  /** With an exact square root, a centre the tangency formula offers next to a circle off the x axis touches that circle and the main circle, each with the gap `delta`. */
  lemma SmallCircleTouchesRim(num: Numerics, delta: real, prev: Circle, next: Circle, mainCircleRadius: real, p: Point)
    requires IsSqrt(num.sqrt)
    requires TangentPointOf(num, delta, prev, next, mainCircleRadius, p)
    requires prev.center.value.y != 0.0
    ensures SqNorm(p) == Sq(mainCircleRadius - delta - next.radius)
    ensures SqDist(p, prev.center.value) == Sq(prev.radius + next.radius + delta)
  {
    TangentCentersTouch(num, delta, prev, next, mainCircleRadius);
    var points := FindTangentCircleCenter(num, delta, prev, next, mainCircleRadius).value;
    var k :| 0 <= k < |points| && points[k] == p;
  }

  /**
   * For an exact root, a centre offered next to a circle on the x axis that is
   * not NaN touches that circle and the main circle, each with the gap.
   */
  lemma SmallCircleOnAxisTouchesRim(num: Numerics, delta: real, prev: Circle, next: Circle, mainCircleRadius: real, p: Point)
    requires IsSqrt(num.sqrt)
    requires TangentPointOf(num, delta, prev, next, mainCircleRadius, p)
    requires prev.center.value.y == 0.0 && !NaNTangentCenter(delta, prev, next, mainCircleRadius)
    ensures SqNorm(p) == Sq(mainCircleRadius - delta - next.radius)
    ensures SqDist(p, prev.center.value) == Sq(prev.radius + next.radius + delta)
  {
    TangentCenterOnAxisTouches(num, delta, prev, next, mainCircleRadius);
    var points := FindTangentCircleCenter(num, delta, prev, next, mainCircleRadius).value;
    assert |points| == 1 && points[0] == p;
  }

  /**
   * For an exact root, every circle the small-circle layer placed touches the
   * rim circle it was placed next to and the main circle, each with the gap.
   */
  lemma SmallLayerTouches(num: Numerics, delta: real, maxSmallCircleRadius: real, init: seq<Circle>, cs: seq<Circle>,
                          placed: seq<nat>, from: seq<nat>, mainCircleRadius: real, k: nat)
    requires IsSqrt(num.sqrt)
    requires SmallPlaced(num, delta, maxSmallCircleRadius, init, cs, placed, from, mainCircleRadius)
    requires k < |cs| && init[k].center.None? && cs[k].center.Some?
    ensures from[k] < |placed| && placed[from[k]] < |cs| && cs[placed[from[k]]].center.Some?
    ensures var rim := cs[placed[from[k]]];
      SqNorm(cs[k].center.value) == Sq(mainCircleRadius - delta - cs[k].radius) &&
      SqDist(cs[k].center.value, rim.center.value) == Sq(rim.radius + cs[k].radius + delta)
  {
    var rim := cs[placed[from[k]]];
    TangentFromPlaced(num, delta, rim, init[k], mainCircleRadius, cs[k].center.value);
    if rim.center.value.y == 0.0 {
      SmallCircleOnAxisTouchesRim(num, delta, rim, init[k], mainCircleRadius, cs[k].center.value);
    } else {
      SmallCircleTouchesRim(num, delta, rim, init[k], mainCircleRadius, cs[k].center.value);
    }
  }

  /**
   * The rim circles `placed[1..]` of `pack_first_layer`: none is small, and
   * each sits on the circle of radius `R - delta - r` at its angle, which is
   * the previous angle plus the angle that makes it touch its predecessor.
   */
  predicate OnRim(num: Numerics, delta: real, maxSmallCircleRadius: real, cs: seq<Circle>, placed: seq<nat>,
                  angles: seq<real>, mainCircleRadius: real)
    requires IndicesIn(placed, |cs|) && |angles| == |placed|
  {
    forall a :: 0 < a < |placed| ==> RimStep(num, delta, maxSmallCircleRadius, cs, placed, angles, mainCircleRadius, a)
  }

  /** Rim circle `placed[a]` is not small and sits at its angle, one step on from rim circle `placed[a - 1]`. */
  predicate RimStep(num: Numerics, delta: real, maxSmallCircleRadius: real, cs: seq<Circle>, placed: seq<nat>,
                    angles: seq<real>, mainCircleRadius: real, a: nat)
    requires IndicesIn(placed, |cs|) && |angles| == |placed| && 0 < a < |placed|
  {
    var r := cs[placed[a]].radius;
    && !IsSmall(r, maxSmallCircleRadius)
    && angles[a] == angles[a - 1] + AngleBetweenPrevNextCircles(num, delta, cs[placed[a - 1]].radius, r, mainCircleRadius)
    && cs[placed[a]].center == Some(RotatedPoint(num, mainCircleRadius - delta - r, angles[a]))
  }

  /** Putting the next rim circle at index `index`, beyond every placed one, extends `OnRim`. */
  lemma OnRimExtends(num: Numerics, delta: real, maxSmallCircleRadius: real, cs: seq<Circle>, placed: seq<nat>,
                     angles: seq<real>, mainCircleRadius: real, index: nat, c: Circle, angle: real)
    requires index < |cs| && IndicesIn(placed, index) && |angles| == |placed| >= 1
    requires OnRim(num, delta, maxSmallCircleRadius, cs, placed, angles, mainCircleRadius)
    requires c.radius == cs[index].radius && !IsSmall(c.radius, maxSmallCircleRadius)
    requires angle == angles[|angles| - 1] +
      AngleBetweenPrevNextCircles(num, delta, cs[placed[|placed| - 1]].radius, c.radius, mainCircleRadius)
    requires c.center == Some(RotatedPoint(num, mainCircleRadius - delta - c.radius, angle))
    ensures OnRim(num, delta, maxSmallCircleRadius, cs[index := c], placed + [index], angles + [angle], mainCircleRadius)
  {
    var ds, placed', angles' := cs[index := c], placed + [index], angles + [angle];
    forall a | 0 < a < |placed'|
      ensures RimStep(num, delta, maxSmallCircleRadius, ds, placed', angles', mainCircleRadius, a)
    {
      assert placed'[a - 1] == placed[a - 1] && placed[a - 1] < index;
      if a < |placed| {
        assert RimStep(num, delta, maxSmallCircleRadius, cs, placed, angles, mainCircleRadius, a);
        assert placed'[a] == placed[a] && placed[a] < index;
      } else {
        assert placed'[a] == index;
      }
    }
  }

  /**
   * The state `pack_first_layer` keeps while it scans the buffer up to
   * `index`, starting from `init`: circle 0 is at the top of the rim, the
   * `placed` indices increase, the rim circles are `OnRim`, no radius changes
   * and no other circle moves; when only circle 0 was placed to begin with,
   * the buffer is separated and its placed circles are exactly `placed`.
   */
  predicate FirstLayerSoFar(num: Numerics, delta: real, maxSmallCircleRadius: real, init: seq<Circle>, cs: seq<Circle>,
                            placed: seq<nat>, angles: seq<real>, index: nat, mainCircleRadius: real)
  {
    && |cs| == |init| >= 1 && index <= |cs|
    && |placed| >= 1 && placed[0] == 0 && IndicesIn(placed, index)
    && (forall a, b :: 0 <= a < b < |placed| ==> placed[a] < placed[b])
    && cs[0] == NewCircle(init[0].radius, Point(0.0, mainCircleRadius - delta - init[0].radius))
    && (forall k :: 0 <= k < |cs| ==> cs[k].radius == init[k].radius)
    && (forall k :: 0 < k < |cs| && k !in placed ==> cs[k] == init[k])
    && |angles| == |placed| && angles[0] == 0.0
    && OnRim(num, delta, maxSmallCircleRadius, cs, placed, angles, mainCircleRadius)
    && ((forall k :: 0 < k < |init| ==> init[k].center.None?) ==>
          && Separated(cs)
          && forall k :: 0 <= k < |cs| ==> (cs[k].center.Some? <==> k in placed))
  }

  /** Placing the rim circle at `index` keeps `FirstLayerSoFar`, now up to `index + 1`. */
  lemma FirstLayerStep(num: Numerics, delta: real, maxSmallCircleRadius: real, init: seq<Circle>, cs: seq<Circle>,
                       placed: seq<nat>, angles: seq<real>, index: nat, mainCircleRadius: real, c: Circle, angle: real)
    requires FirstLayerSoFar(num, delta, maxSmallCircleRadius, init, cs, placed, angles, index, mainCircleRadius)
    requires 0 < index < |cs| && c.radius == cs[index].radius && !IsSmall(c.radius, maxSmallCircleRadius)
    requires angle == angles[|angles| - 1] +
      AngleBetweenPrevNextCircles(num, delta, cs[placed[|placed| - 1]].radius, c.radius, mainCircleRadius)
    requires c.center == Some(RotatedPoint(num, mainCircleRadius - delta - c.radius, angle))
    requires !IsOverlapQuad(c, cs)
    ensures FirstLayerSoFar(num, delta, maxSmallCircleRadius, init, cs[index := c], placed + [index], angles + [angle],
                            index + 1, mainCircleRadius)
  {
    var ds, placed' := cs[index := c], placed + [index];
    OnRimExtends(num, delta, maxSmallCircleRadius, cs, placed, angles, mainCircleRadius, index, c, angle);
    assert index !in placed;
    if forall k :: 0 < k < |init| ==> init[k].center.None? {
      PlaceKeepsSeparated(cs, index, c);
    }
    forall k | 0 < k < |ds| && k !in placed'
      ensures ds[k] == init[k]
    {
      assert k != index && k !in placed;
    }
  }

  /** Skipping `index` keeps `FirstLayerSoFar`, now up to `index + 1`. */
  lemma FirstLayerSkip(num: Numerics, delta: real, maxSmallCircleRadius: real, init: seq<Circle>, cs: seq<Circle>,
                       placed: seq<nat>, angles: seq<real>, index: nat, mainCircleRadius: real)
    requires FirstLayerSoFar(num, delta, maxSmallCircleRadius, init, cs, placed, angles, index, mainCircleRadius)
    requires index < |cs|
    ensures FirstLayerSoFar(num, delta, maxSmallCircleRadius, init, cs, placed, angles, index + 1, mainCircleRadius)
  {
  }

  /** Pair `(i', s)` comes before `(i, shift)` in the scan order of the candidate search. */
  predicate Before(i': nat, s: nat, i: nat, shift: nat, m: nat)
  {
    1 <= s <= m && (i' < i || (i' == i && s < shift))
  }

  /**
   * The state of the candidate search after every pair before `(i, shift)`:
   * `alpha` is `-inf` exactly when none of them was admissible, otherwise it
   * is the score of the admissible pair `(index, bestShift)` giving
   * `candidate`, and no admissible pair scored higher.
   */
  ghost predicate BestSoFar(num: Numerics, delta: real, corrected: bool, cs: seq<Circle>, placed: seq<nat>, pci: nat, mainCircleRadius: real,
                            i: nat, shift: nat, alpha: Alpha, index: nat, bestShift: nat, candidate: Circle)
    requires pci < |placed| && IndicesIn(placed, |cs|) && PositiveCircles(cs) && delta >= 0.0
  {
    var m := MaxShift(|placed|);
    && (alpha.NegInfinity? <==>
          forall i', s :: 0 <= i' < |cs| && Before(i', s, i, shift, m) ==>
            Candidate(num, delta, corrected, cs, placed, pci, i', s, mainCircleRadius).None?)
    && (alpha.Finite? ==>
          && index < |cs| && Before(index, bestShift, i, shift, m)
          && Candidate(num, delta, corrected, cs, placed, pci, index, bestShift, mainCircleRadius) == Some(candidate)
          && Score(num, delta, cs, placed, pci, index, bestShift) == alpha)
    && (forall i', s ::
          (0 <= i' < |cs| && Before(i', s, i, shift, m) &&
           Candidate(num, delta, corrected, cs, placed, pci, i', s, mainCircleRadius).Some?) ==>
            !AlphaLess(alpha, Score(num, delta, cs, placed, pci, i', s)))
  }

  /** An admissible pair has two placed circles, so its score is finite. */
  lemma CandidateScoreFinite(num: Numerics, delta: real, corrected: bool, cs: seq<Circle>, placed: seq<nat>, pci: nat, mainCircleRadius: real,
                             i: nat, shift: nat)
    requires pci < |placed| && i < |cs| && IndicesIn(placed, |cs|) && PositiveCircles(cs) && delta >= 0.0
    requires Candidate(num, delta, corrected, cs, placed, pci, i, shift, mainCircleRadius).Some?
    ensures Score(num, delta, cs, placed, pci, i, shift).Finite?
  {
  }

  /** A pair that is inadmissible, or scores no higher than the best so far, leaves the search as it was. */
  lemma BestKeep(num: Numerics, delta: real, corrected: bool, cs: seq<Circle>, placed: seq<nat>, pci: nat, mainCircleRadius: real,
                 i: nat, shift: nat, alpha: Alpha, index: nat, bestShift: nat, candidate: Circle)
    requires pci < |placed| && i < |cs| && IndicesIn(placed, |cs|) && PositiveCircles(cs) && delta >= 0.0
    requires 1 <= shift <= MaxShift(|placed|)
    requires BestSoFar(num, delta, corrected, cs, placed, pci, mainCircleRadius, i, shift, alpha, index, bestShift, candidate)
    requires Candidate(num, delta, corrected, cs, placed, pci, i, shift, mainCircleRadius).None? ||
             !AlphaLess(alpha, Score(num, delta, cs, placed, pci, i, shift))
    ensures BestSoFar(num, delta, corrected, cs, placed, pci, mainCircleRadius, i, shift + 1, alpha, index, bestShift, candidate)
  {
    var m := MaxShift(|placed|);
    if Candidate(num, delta, corrected, cs, placed, pci, i, shift, mainCircleRadius).Some? {
      CandidateScoreFinite(num, delta, corrected, cs, placed, pci, mainCircleRadius, i, shift);
    }
    forall i', s | 0 <= i' < |cs| && Before(i', s, i, shift + 1, m) && !(i' == i && s == shift)
      ensures Before(i', s, i, shift, m)
    {
    }
  }

  /** An admissible pair scoring higher than the best so far becomes the best. */
  lemma BestUpdate(num: Numerics, delta: real, corrected: bool, cs: seq<Circle>, placed: seq<nat>, pci: nat, mainCircleRadius: real,
                   i: nat, shift: nat, alpha: Alpha, index: nat, bestShift: nat, candidate: Circle, c: Circle)
    requires pci < |placed| && i < |cs| && IndicesIn(placed, |cs|) && PositiveCircles(cs) && delta >= 0.0
    requires 1 <= shift <= MaxShift(|placed|)
    requires BestSoFar(num, delta, corrected, cs, placed, pci, mainCircleRadius, i, shift, alpha, index, bestShift, candidate)
    requires Candidate(num, delta, corrected, cs, placed, pci, i, shift, mainCircleRadius) == Some(c)
    requires AlphaLess(alpha, Score(num, delta, cs, placed, pci, i, shift))
    ensures BestSoFar(num, delta, corrected, cs, placed, pci, mainCircleRadius, i, shift + 1,
                      Score(num, delta, cs, placed, pci, i, shift), i, shift, c)
  {
    var m := MaxShift(|placed|);
    CandidateScoreFinite(num, delta, corrected, cs, placed, pci, mainCircleRadius, i, shift);
    forall i', s | 0 <= i' < |cs| && Before(i', s, i, shift + 1, m) && !(i' == i && s == shift)
      ensures Before(i', s, i, shift, m)
    {
    }
  }

  /** A placed circle `i` offers no admissible pair. */
  lemma BestSkipPlaced(num: Numerics, delta: real, corrected: bool, cs: seq<Circle>, placed: seq<nat>, pci: nat, mainCircleRadius: real,
                       i: nat, alpha: Alpha, index: nat, bestShift: nat, candidate: Circle)
    requires pci < |placed| && i < |cs| && IndicesIn(placed, |cs|) && PositiveCircles(cs) && delta >= 0.0
    requires cs[i].center.Some?
    requires BestSoFar(num, delta, corrected, cs, placed, pci, mainCircleRadius, i, 1, alpha, index, bestShift, candidate)
    ensures BestSoFar(num, delta, corrected, cs, placed, pci, mainCircleRadius, i + 1, 1, alpha, index, bestShift, candidate)
  {
  }

  /** Having scanned every shift of circle `i` is having scanned up to circle `i + 1`. */
  lemma BestNextRow(num: Numerics, delta: real, corrected: bool, cs: seq<Circle>, placed: seq<nat>, pci: nat, mainCircleRadius: real,
                    i: nat, alpha: Alpha, index: nat, bestShift: nat, candidate: Circle)
    requires pci < |placed| && IndicesIn(placed, |cs|) && PositiveCircles(cs) && delta >= 0.0
    requires BestSoFar(num, delta, corrected, cs, placed, pci, mainCircleRadius, i, MaxShift(|placed|) + 1, alpha, index, bestShift, candidate)
    ensures BestSoFar(num, delta, corrected, cs, placed, pci, mainCircleRadius, i + 1, 1, alpha, index, bestShift, candidate)
  {
    var m := MaxShift(|placed|);
  }

  /** After the last circle the search state answers for every pair. */
  lemma BestDone(num: Numerics, delta: real, corrected: bool, cs: seq<Circle>, placed: seq<nat>, pci: nat, mainCircleRadius: real,
                 alpha: Alpha, index: nat, bestShift: nat, candidate: Circle)
    requires pci < |placed| && IndicesIn(placed, |cs|) && PositiveCircles(cs) && delta >= 0.0
    requires BestSoFar(num, delta, corrected, cs, placed, pci, mainCircleRadius, |cs|, 1, alpha, index, bestShift, candidate)
    ensures alpha.NegInfinity? <==>
      forall i, shift :: 0 <= i < |cs| && 1 <= shift <= MaxShift(|placed|) ==>
        Candidate(num, delta, corrected, cs, placed, pci, i, shift, mainCircleRadius).None?
    ensures alpha.Finite? ==>
      (index < |cs| && 1 <= bestShift <= MaxShift(|placed|) &&
       Candidate(num, delta, corrected, cs, placed, pci, index, bestShift, mainCircleRadius) == Some(candidate) &&
       Score(num, delta, cs, placed, pci, index, bestShift) == alpha)
    ensures forall i, shift ::
      (0 <= i < |cs| && 1 <= shift <= MaxShift(|placed|) &&
       Candidate(num, delta, corrected, cs, placed, pci, i, shift, mainCircleRadius).Some?) ==>
        !AlphaLess(alpha, Score(num, delta, cs, placed, pci, i, shift))
  {
    var m := MaxShift(|placed|);
    forall i', s | 0 <= i' < |cs| ensures Before(i', s, |cs|, 1, m) == (1 <= s <= m) {}
  }

  // ------------------------------------------------ the algorithm

  class HeuristicAlgorithm {
    const iterations: nat
    var radiuses: seq<real>
    const maxSmallCircleRadius: real
    const delta: real
    const num: Numerics
    /** Which `find_third_circle_center` the later layers call: `false` is the source as written, `true` the corrected radicand. */
    const corrected: bool

    /** The struct the builder assembles, with the draws of its generator left to `find`. */
    constructor (iterations: nat, radiuses: seq<real>, maxSmallCircleRadius: real, delta: real, num: Numerics, corrected: bool)
      ensures this.iterations == iterations && this.radiuses == radiuses
      ensures this.maxSmallCircleRadius == maxSmallCircleRadius && this.delta == delta && this.num == num
      ensures this.corrected == corrected
    {
      this.iterations := iterations;
      this.radiuses := radiuses;
      this.maxSmallCircleRadius := maxSmallCircleRadius;
      this.delta := delta;
      this.num := num;
      this.corrected := corrected;
    }

    /** Positive radii and a non-negative gap: the sides `eval_alpha` divides by are then positive. */
    predicate Valid()
      reads this
    {
      delta >= 0.0 && PositiveRadii(radiuses)
    }

    /**
     * `pack_first_layer`: circle 0 goes to the top of the rim, then every
     * circle that is not small goes on the rim at the angle that makes it
     * touch the last rim circle, unless it overlaps a circle of the buffer.
     * The ghost `angles` are the rim angles of the `placed` circles.
     */
    method PackFirstLayer(circles: array<Circle>, mainCircleRadius: real) returns (placed: seq<nat>, ghost angles: seq<real>)
      requires circles.Length >= 1
      modifies circles
      ensures |placed| >= 1 && placed[0] == 0 && IndicesIn(placed, circles.Length)
      ensures forall a, b :: 0 <= a < b < |placed| ==> placed[a] < placed[b]
      ensures circles[0] == NewCircle(old(circles[0]).radius, Point(0.0, mainCircleRadius - delta - old(circles[0]).radius))
      ensures forall k :: 0 <= k < circles.Length ==> circles[k].radius == old(circles[k]).radius
      ensures forall k :: 0 < k < circles.Length && k !in placed ==> circles[k] == old(circles[k])
      ensures |angles| == |placed| && angles[0] == 0.0
      ensures OnRim(num, delta, maxSmallCircleRadius, circles[..], placed, angles, mainCircleRadius)
      ensures (forall k :: 0 < k < circles.Length ==> old(circles[k]).center.None?) ==>
        && Separated(circles[..])
        && forall k :: 0 <= k < circles.Length ==> (circles[k].center.Some? <==> k in placed)
    {
      ghost var init := circles[..];
      var r0 := circles[0].radius;
      circles[0] := Circle(Some(Point(0.0, mainCircleRadius - delta - r0)), r0);
      placed := [0];
      angles := [0.0];
      var prevCircleAngle := 0.0;
      for index := 1 to circles.Length
        invariant FirstLayerSoFar(num, delta, maxSmallCircleRadius, init, circles[..], placed, angles, index, mainCircleRadius)
        invariant prevCircleAngle == angles[|angles| - 1]
      {
        placed, angles, prevCircleAngle := RimCircle(circles, mainCircleRadius, init, placed, angles, prevCircleAngle, index);
      }
    }

    /**
     * One step of the loop of `pack_first_layer`: circle `index`, when it is
     * not small, goes on the rim next to the last rim circle, unless it
     * overlaps a circle of the buffer there.
     */
    method RimCircle(circles: array<Circle>, mainCircleRadius: real, ghost init: seq<Circle>,
                     placed0: seq<nat>, ghost angles0: seq<real>, prevCircleAngle0: real, index: nat)
      returns (placed: seq<nat>, ghost angles: seq<real>, prevCircleAngle: real)
      requires 0 < index < circles.Length
      requires FirstLayerSoFar(num, delta, maxSmallCircleRadius, init, circles[..], placed0, angles0, index, mainCircleRadius)
      requires prevCircleAngle0 == angles0[|angles0| - 1]
      modifies circles
      ensures FirstLayerSoFar(num, delta, maxSmallCircleRadius, init, circles[..], placed, angles, index + 1, mainCircleRadius)
      ensures prevCircleAngle == angles[|angles| - 1]
    {
      placed, angles, prevCircleAngle := placed0, angles0, prevCircleAngle0;
      var r := circles[index].radius;
      if IsSmall(r, maxSmallCircleRadius) {
        FirstLayerSkip(num, delta, maxSmallCircleRadius, init, circles[..], placed, angles, index, mainCircleRadius);
        return;
      }
      var nextCircleAngle := prevCircleAngle +
        AngleBetweenPrevNextCircles(num, delta, circles[placed[|placed| - 1]].radius, r, mainCircleRadius);
      var newCircle := Circle(Some(RotatedPoint(num, mainCircleRadius - delta - r, nextCircleAngle)), r);
      if !IsOverlapQuad(newCircle, circles[..]) {
        FirstLayerStep(num, delta, maxSmallCircleRadius, init, circles[..], placed, angles, index, mainCircleRadius,
                       newCircle, nextCircleAngle);
        circles[index] := newCircle;
        placed := placed + [index];
        angles := angles + [nextCircleAngle];
        prevCircleAngle := nextCircleAngle;
      } else {
        FirstLayerSkip(num, delta, maxSmallCircleRadius, init, circles[..], placed, angles, index, mainCircleRadius);
      }
    }

    /**
     * `pack_small_circle_layer`: for each rim circle in turn, the first
     * unplaced small circle with an offered centre inside the main circle
     * that overlaps nothing is placed there, and the scan moves on to the
     * next rim circle.  The ghost `from[k]` names the rim circle a new circle
     * `k` was placed next to.
     */
    method PackSmallCircleLayer(circles: array<Circle>, placed: seq<nat>, mainCircleRadius: real)
      returns (ghost from: seq<nat>)
      requires IndicesIn(placed, circles.Length)
      modifies circles
      ensures SmallPlaced(num, delta, maxSmallCircleRadius, old(circles[..]), circles[..], placed, from, mainCircleRadius)
      ensures Separated(old(circles[..])) ==> Separated(circles[..])
    {
      ghost var init := circles[..];
      from := seq(circles.Length, k => 0);
      for a := 0 to |placed|
        invariant SmallPlaced(num, delta, maxSmallCircleRadius, init, circles[..], placed, from, mainCircleRadius)
        invariant Separated(init) ==> Separated(circles[..])
      {
        var prevIndex := placed[a];
        label circlesLoop: for i := 0 to circles.Length
          invariant SmallPlaced(num, delta, maxSmallCircleRadius, init, circles[..], placed, from, mainCircleRadius)
          invariant Separated(init) ==> Separated(circles[..])
        {
          if circles[i].center.Some? || !IsSmall(circles[i].radius, maxSmallCircleRadius) {
            continue;
          }
          var points := FindTangentCircleCenter(num, delta, circles[prevIndex], circles[i], mainCircleRadius);
          if points.Some? {
            for j := 0 to |points.value|
              invariant SmallPlaced(num, delta, maxSmallCircleRadius, init, circles[..], placed, from, mainCircleRadius)
              invariant Separated(init) ==> Separated(circles[..])
            {
              var newCircle := Circle(Some(points.value[j]), circles[i].radius);
              if IsInsideMainCircleQuad(newCircle, mainCircleRadius) && !NaNTangentCenter(delta, circles[prevIndex], circles[i], mainCircleRadius)
                 && !IsOverlapQuad(newCircle, circles[..])
              {
                SmallPlacementKeeps(num, delta, maxSmallCircleRadius, init, circles[..], placed, from, mainCircleRadius,
                                    a, i, newCircle);
                if Separated(init) {
                  PlaceKeepsSeparated(circles[..], i, newCircle);
                }
                circles[i] := newCircle;
                from := from[i := a];
                break circlesLoop;
              }
            }
          }
        }
      }
    }

    /**
     * The candidate search of one pass of `pack_other_layers` for the placed
     * circle `placed[pci]`: over every unplaced circle and both following
     * placed circles, the admissible placement with the greatest
     * `eval_alpha`; `-inf` when there is none.
     */
    method BestCandidate(cs: seq<Circle>, placed: seq<nat>, pci: nat, mainCircleRadius: real)
      returns (alpha: Alpha, index: nat, candidate: Circle)
      requires pci < |placed| && IndicesIn(placed, |cs|) && PositiveCircles(cs) && delta >= 0.0
      ensures alpha.NegInfinity? <==>
        forall i, shift :: 0 <= i < |cs| && 1 <= shift <= MaxShift(|placed|) ==>
          Candidate(num, delta, corrected, cs, placed, pci, i, shift, mainCircleRadius).None?
      ensures alpha.Finite? ==>
        (index < |cs| &&
         exists shift :: 1 <= shift <= MaxShift(|placed|) &&
           Candidate(num, delta, corrected, cs, placed, pci, index, shift, mainCircleRadius) == Some(candidate) &&
           Score(num, delta, cs, placed, pci, index, shift) == alpha)
      ensures forall i, shift ::
        (0 <= i < |cs| && 1 <= shift <= MaxShift(|placed|) &&
         Candidate(num, delta, corrected, cs, placed, pci, i, shift, mainCircleRadius).Some?) ==>
          !AlphaLess(alpha, Score(num, delta, cs, placed, pci, i, shift))
    {
      alpha, index, candidate := NegInfinity, 0, DefaultCircle;
      ghost var bestShift := 0;
      for i := 0 to |cs|
        invariant BestSoFar(num, delta, corrected, cs, placed, pci, mainCircleRadius, i, 1, alpha, index, bestShift, candidate)
      {
        if cs[i].center.Some? {
          BestSkipPlaced(num, delta, corrected, cs, placed, pci, mainCircleRadius, i, alpha, index, bestShift, candidate);
          continue;
        }
        alpha, index, candidate, bestShift := ScanCircle(cs, placed, pci, mainCircleRadius, i, alpha, index, candidate, bestShift);
      }
      BestDone(num, delta, corrected, cs, placed, pci, mainCircleRadius, alpha, index, bestShift, candidate);
    }

    /** The inner loop of the candidate search: circle `i` against each following placed circle. */
    method ScanCircle(cs: seq<Circle>, placed: seq<nat>, pci: nat, mainCircleRadius: real, i: nat,
                      alpha0: Alpha, index0: nat, candidate0: Circle, ghost bestShift0: nat)
      returns (alpha: Alpha, index: nat, candidate: Circle, ghost bestShift: nat)
      requires pci < |placed| && i < |cs| && IndicesIn(placed, |cs|) && PositiveCircles(cs) && delta >= 0.0
      requires cs[i].center.None?
      requires BestSoFar(num, delta, corrected, cs, placed, pci, mainCircleRadius, i, 1, alpha0, index0, bestShift0, candidate0)
      ensures BestSoFar(num, delta, corrected, cs, placed, pci, mainCircleRadius, i + 1, 1, alpha, index, bestShift, candidate)
    {
      alpha, index, candidate, bestShift := alpha0, index0, candidate0, bestShift0;
      for shift := 1 to MaxShift(|placed|) + 1
        invariant BestSoFar(num, delta, corrected, cs, placed, pci, mainCircleRadius, i, shift, alpha, index, bestShift, candidate)
      {
        alpha, index, candidate, bestShift := ConsiderPair(cs, placed, pci, mainCircleRadius, i, shift,
                                                           alpha, index, candidate, bestShift);
      }
      BestNextRow(num, delta, corrected, cs, placed, pci, mainCircleRadius, i, alpha, index, bestShift, candidate);
    }

    /**
     * One step of the inner loop: circle `i` between `placed[pci]` and the
     * placed circle `shift` places further on.  A pair whose `eval_alpha` is
     * below the best so far is skipped before the centre is computed.
     */
    method ConsiderPair(cs: seq<Circle>, placed: seq<nat>, pci: nat, mainCircleRadius: real, i: nat, shift: nat,
                        alpha0: Alpha, index0: nat, candidate0: Circle, ghost bestShift0: nat)
      returns (alpha: Alpha, index: nat, candidate: Circle, ghost bestShift: nat)
      requires pci < |placed| && i < |cs| && IndicesIn(placed, |cs|) && PositiveCircles(cs) && delta >= 0.0
      requires 1 <= shift <= MaxShift(|placed|) && cs[i].center.None?
      requires BestSoFar(num, delta, corrected, cs, placed, pci, mainCircleRadius, i, shift, alpha0, index0, bestShift0, candidate0)
      ensures BestSoFar(num, delta, corrected, cs, placed, pci, mainCircleRadius, i, shift + 1, alpha, index, bestShift, candidate)
    {
      alpha, index, candidate, bestShift := alpha0, index0, candidate0, bestShift0;
      var firstIndex := placed[pci];
      var secondIndex := placed[(pci + shift) % |placed|];
      var a := EvalAlpha(num, delta, cs[firstIndex], cs[secondIndex], cs[i].radius);
      if AlphaLess(a, alpha) {
        BestKeep(num, delta, corrected, cs, placed, pci, mainCircleRadius, i, shift, alpha, index, bestShift, candidate);
        return;
      }
      var newCircleCenter := ThirdCircleCenter(num, delta, corrected, cs[firstIndex], cs[secondIndex], cs[i].radius);
      if newCircleCenter.None? {
        BestKeep(num, delta, corrected, cs, placed, pci, mainCircleRadius, i, shift, alpha, index, bestShift, candidate);
        return;
      }
      var newCircle := Circle(newCircleCenter, cs[i].radius);
      if IsInsideMainCircleQuad(newCircle, mainCircleRadius) && !NaNThirdCenter(corrected, cs[firstIndex], cs[secondIndex], cs[i].radius)
         && !IsOverlapQuad(newCircle, cs) && AlphaLess(alpha, a)
      {
        BestUpdate(num, delta, corrected, cs, placed, pci, mainCircleRadius, i, shift, alpha, index, bestShift, candidate, newCircle);
        alpha, index, candidate := a, i, newCircle;
        bestShift := shift;
      } else {
        BestKeep(num, delta, corrected, cs, placed, pci, mainCircleRadius, i, shift, alpha, index, bestShift, candidate);
      }
    }

    /**
     * `pack_other_layers`: pass after pass, each circle placed in the previous
     * pass (the rim circles first) gets the best admissible candidate of
     * `BestCandidate`, if any, placed; the passes stop once one places
     * nothing.  At most `circles.Length + 1` passes are made.
     */
    method PackOtherLayers(circles: array<Circle>, placed: seq<nat>, mainCircleRadius: real)
      returns (ghost from: seq<(nat, nat)>, ghost passes: nat)
      requires IndicesIn(placed, circles.Length) && PositiveCircles(circles[..]) && delta >= 0.0
      modifies circles
      ensures OtherPlaced(ThirdFinder(num, delta, corrected), old(circles[..]), circles[..], from, mainCircleRadius)
      ensures Separated(old(circles[..])) ==> Separated(circles[..])
      ensures passes <= circles.Length + 1
    {
      ghost var init := circles[..];
      from := seq(circles.Length, k => (0, 0));
      passes := 0;
      var current := placed;
      while |current| > 0
        invariant OtherPlaced(ThirdFinder(num, delta, corrected), init, circles[..], from, mainCircleRadius)
        invariant Separated(init) ==> Separated(circles[..])
        invariant IndicesIn(current, circles.Length) && PositiveCircles(circles[..])
        invariant passes + Unplaced(circles[..]) + (if |current| > 0 then 1 else 0) <= circles.Length + 1
        decreases Unplaced(circles[..]) + (if |current| > 0 then 1 else 0)
      {
        ghost var before := Unplaced(circles[..]);
        var next: seq<nat> := [];
        for pci := 0 to |current|
          invariant OtherPlaced(ThirdFinder(num, delta, corrected), init, circles[..], from, mainCircleRadius)
          invariant Separated(init) ==> Separated(circles[..])
          invariant IndicesIn(next, circles.Length) && PositiveCircles(circles[..])
          invariant Unplaced(circles[..]) + |next| == before
        {
          var alpha, index, candidate;
          from, next, alpha, index, candidate := PlaceBest(circles, current, pci, mainCircleRadius, init, from, next);
        }
        current := next;
        passes := passes + 1;
      }
    }

    /**
     * One step of a pass of `pack_other_layers`: the best candidate for
     * `current[pci]`, if there is one, is placed, and its index is appended
     * to the circles placed in this pass.  `alpha`, `index` and `candidate`
     * are the search's result: `-inf` exactly when no pair is admissible, in
     * which case nothing changes; otherwise an admissible candidate that no
     * pair outscores, now in the buffer at `index`.
     */
    method PlaceBest(circles: array<Circle>, current: seq<nat>, pci: nat, mainCircleRadius: real,
                     ghost init: seq<Circle>, ghost from0: seq<(nat, nat)>, next0: seq<nat>)
      returns (ghost from: seq<(nat, nat)>, next: seq<nat>, alpha: Alpha, index: nat, candidate: Circle)
      requires pci < |current| && IndicesIn(current, circles.Length) && IndicesIn(next0, circles.Length)
      requires PositiveCircles(circles[..]) && delta >= 0.0
      requires OtherPlaced(ThirdFinder(num, delta, corrected), init, circles[..], from0, mainCircleRadius)
      modifies circles
      ensures OtherPlaced(ThirdFinder(num, delta, corrected), init, circles[..], from, mainCircleRadius)
      ensures Separated(old(circles[..])) ==> Separated(circles[..])
      ensures IndicesIn(next, circles.Length) && PositiveCircles(circles[..])
      ensures Unplaced(circles[..]) + |next| == Unplaced(old(circles[..])) + |next0|
      ensures |next0| <= |next| <= |next0| + 1 && next[..|next0|] == next0
      ensures alpha.NegInfinity? <==>
        forall i, shift :: 0 <= i < circles.Length && 1 <= shift <= MaxShift(|current|) ==>
          Candidate(num, delta, corrected, old(circles[..]), current, pci, i, shift, mainCircleRadius).None?
      ensures alpha.NegInfinity? ==> circles[..] == old(circles[..]) && next == next0
      ensures alpha.Finite? ==>
        index < circles.Length && circles[..] == old(circles[..])[index := candidate] && next == next0 + [index] &&
        exists shift :: 1 <= shift <= MaxShift(|current|) &&
          Candidate(num, delta, corrected, old(circles[..]), current, pci, index, shift, mainCircleRadius) == Some(candidate) &&
          Score(num, delta, old(circles[..]), current, pci, index, shift) == alpha
      ensures forall i, shift ::
        (0 <= i < circles.Length && 1 <= shift <= MaxShift(|current|) &&
         Candidate(num, delta, corrected, old(circles[..]), current, pci, i, shift, mainCircleRadius).Some?) ==>
          !AlphaLess(alpha, Score(num, delta, old(circles[..]), current, pci, i, shift))
    {
      from, next := from0, next0;
      alpha, index, candidate := BestCandidate(circles[..], current, pci, mainCircleRadius);
      if alpha != NegInfinity {
        ghost var shift :| 1 <= shift <= MaxShift(|current|) &&
          Candidate(num, delta, corrected, circles[..], current, pci, index, shift, mainCircleRadius) == Some(candidate);
        from, next := PlaceCandidate(circles, current, pci, mainCircleRadius, init, from, next, index, shift, candidate);
      }
    }

    /** Placing the chosen candidate: circle `index` between `current[pci]` and the circle `shift` places on. */
    method PlaceCandidate(circles: array<Circle>, current: seq<nat>, pci: nat, mainCircleRadius: real,
                          ghost init: seq<Circle>, ghost from0: seq<(nat, nat)>, next0: seq<nat>,
                          index: nat, ghost shift: nat, candidate: Circle)
      returns (ghost from: seq<(nat, nat)>, next: seq<nat>)
      requires pci < |current| && IndicesIn(current, circles.Length) && IndicesIn(next0, circles.Length)
      requires PositiveCircles(circles[..]) && delta >= 0.0 && index < circles.Length
      requires OtherPlaced(ThirdFinder(num, delta, corrected), init, circles[..], from0, mainCircleRadius)
      requires Candidate(num, delta, corrected, circles[..], current, pci, index, shift, mainCircleRadius) == Some(candidate)
      modifies circles
      ensures OtherPlaced(ThirdFinder(num, delta, corrected), init, circles[..], from, mainCircleRadius)
      ensures Separated(old(circles[..])) ==> Separated(circles[..])
      ensures IndicesIn(next, circles.Length) && PositiveCircles(circles[..])
      ensures Unplaced(circles[..]) + |next| == Unplaced(old(circles[..])) + |next0|
      ensures circles[..] == old(circles[..])[index := candidate] && next == next0 + [index]
    {
      ghost var cs := circles[..];
      OtherLayerPlacement(num, delta, corrected, init, cs, from0, current, pci, shift, index, candidate, mainCircleRadius);
      from := from0[index := (current[pci], current[(pci + shift) % |current|])];
      circles[index] := candidate;
      assert circles[..] == cs[index := candidate];
      next := next0 + [index];
      assert next[|next| - 1] == index;
    }

    /**
     * `pack_circles`: every radius starts as an unplaced circle, the three
     * layers are packed in turn, and the buffer is returned when the exact
     * validity test accepts it.  A returned buffer is valid, keeps the radii
     * in their order and has circle 0 at the top of the main circle.
     */
    method PackCircles(mainCircleRadius: real) returns (r: Option<seq<Circle>>)
      requires |radiuses| >= 1 && Valid()
      ensures r.Some? ==>
        && ValidCircles(mainCircleRadius, r.value)
        && Radii(r.value) == radiuses
        && r.value[0].center == Some(Point(0.0, mainCircleRadius - delta - radiuses[0]))
    {
      var rs := radiuses;
      var circles := new Circle[|rs|](k requires 0 <= k < |rs| => WithRadius(rs[k]));
      ghost var start := circles[..];
      assert forall k :: 0 <= k < circles.Length ==> start[k].radius == rs[k];
      var placed, angles := PackFirstLayer(circles, mainCircleRadius);
      ghost var first := circles[..];
      var fromSmall := PackSmallCircleLayer(circles, placed, mainCircleRadius);
      ghost var second := circles[..];
      assert Extends(first, second);
      var fromOther, passes := PackOtherLayers(circles, placed, mainCircleRadius);
      assert Extends(second, circles[..]);
      ExtendsTransitive(first, second, circles[..]);
      var valid := IsValidPack(mainCircleRadius, circles[..]);
      if valid {
        r := Some(circles[..]);
      } else {
        r := None;
      }
    }

    /** `swap_circles` for the drawn pair of indices `(i, j)`. */
    method SwapCircles(i: nat, j: nat)
      requires i < |radiuses| && j < |radiuses|
      modifies this
      ensures radiuses == Swapped(old(radiuses), i, j)
    {
      radiuses := radiuses[i := radiuses[j]][j := radiuses[i]];
    }

    /** The `skip_iteration` swaps `find` makes first, with the first `skip` draws. */
    method SkipSwaps(skip: nat, draws: seq<(nat, nat)>)
      requires Valid() && skip <= |draws| && InRange(draws, |radiuses|)
      modifies this
      ensures radiuses == ApplySwaps(old(radiuses), draws, skip) && Valid()
    {
      ghost var rs0 := radiuses;
      for k := 0 to skip
        invariant radiuses == ApplySwaps(rs0, draws, k) && |radiuses| == |rs0| && Valid()
      {
        SwappedKeepsPositive(radiuses, draws[k].0, draws[k].1);
        SwapCircles(draws[k].0, draws[k].1);
      }
    }

    /**
     * The bisection of one round of `find`: `right` starts at the best main
     * radius so far and moves down to each `middle` that `pack_circles`
     * succeeds with, keeping that packing; `left` moves up to each one it
     * fails with; the search stops once the bracket is narrower than `1e-4`.
     * A bound below the start comes with a valid packing of it holding the
     * current radii; otherwise the previous packing is kept.
     */
    method Bisect(mainCircleRadius: real, previous: seq<Circle>) returns (right: real, pack: seq<Circle>)
      requires |radiuses| >= 1 && Valid() && mainCircleRadius >= 0.0
      ensures 0.0 <= right <= mainCircleRadius
      ensures right < mainCircleRadius ==> ValidCircles(right, pack) && Radii(pack) == radiuses
      ensures right == mainCircleRadius ==> pack == previous
    {
      var left := 0.0;
      right, pack := mainCircleRadius, previous;
      while right - left >= 0.0001
        invariant 0.0 <= left <= right <= mainCircleRadius
        invariant right < mainCircleRadius ==> ValidCircles(right, pack) && Radii(pack) == radiuses
        invariant right == mainCircleRadius ==> pack == previous
        decreases ((right - left) * 1000000.0).Floor
      {
        var middle := left + (right - left) / 1.02;
        var circles := PackCircles(middle);
        if circles.Some? {
          right := middle;
          pack := circles.value;
        } else {
          left := middle;
        }
      }
    }

    /**
     * One round of `find` before its swap: bisect below the best main radius
     * so far and keep the packing found when its radius is smaller and it
     * passes `is_valid_pack`.  The best radius never grows, and a smaller
     * one comes with a valid packing of it holding the current radii.
     */
    method ShrinkRound(mainCircleRadius: real, innerCirclesPack: seq<Circle>, newInnerCirclesPack: seq<Circle>)
      returns (mainCircleRadius': real, innerCirclesPack': seq<Circle>, newInnerCirclesPack': seq<Circle>)
      requires |radiuses| >= 1 && Valid() && mainCircleRadius >= 0.0
      ensures 0.0 <= mainCircleRadius' <= mainCircleRadius
      ensures mainCircleRadius' == mainCircleRadius ==> innerCirclesPack' == innerCirclesPack
      ensures mainCircleRadius' < mainCircleRadius ==>
        ValidCircles(mainCircleRadius', innerCirclesPack') && Radii(innerCirclesPack') == radiuses
    {
      mainCircleRadius', innerCirclesPack' := mainCircleRadius, innerCirclesPack;
      var right, pack := Bisect(mainCircleRadius, newInnerCirclesPack);
      newInnerCirclesPack' := pack;
      var newMainCircleRadius := right;
      if newMainCircleRadius < mainCircleRadius {
        var valid := IsValidPack(newMainCircleRadius, newInnerCirclesPack');
        if valid {
          mainCircleRadius', innerCirclesPack' := newMainCircleRadius, newInnerCirclesPack';
        }
      }
    }

    /**
     * The `iterations` rounds of `find`, with the draws `rounds` for their
     * swaps: the best main radius starts at `ceiling` with the unplaced
     * defaults, each round may shrink it, and then two radii are swapped.
     */
    method Rounds(rounds: seq<(nat, nat)>, ceiling: real, ghost rs0: seq<real>)
      returns (mainCircleRadius: real, innerCirclesPack: seq<Circle>)
      requires Valid() && |rounds| == iterations && InRange(rounds, |radiuses|) && ceiling >= 0.0
      requires |rs0| == |radiuses| && multiset(radiuses) == multiset(rs0)
      modifies this
      ensures radiuses == ApplySwaps(old(radiuses), rounds, |rounds|) && Valid()
      ensures Improved(ceiling, rs0, mainCircleRadius, innerCirclesPack)
    {
      ghost var rs1 := radiuses;
      mainCircleRadius := ceiling;
      var newInnerCirclesPack: seq<Circle> := [];
      innerCirclesPack := Defaults(|radiuses|);
      for iter := 0 to iterations
        invariant radiuses == ApplySwaps(rs1, rounds, iter) && |radiuses| == |rs0| && Valid()
        invariant Improved(ceiling, rs0, mainCircleRadius, innerCirclesPack)
      {
        assert |radiuses| >= 1 by {
          assert rounds[iter].0 < |rs1|;
        }
        var mainCircleRadius', innerCirclesPack', newInnerCirclesPack' :=
          ShrinkRound(mainCircleRadius, innerCirclesPack, newInnerCirclesPack);
        ApplySwapsPermutes(rs1, rounds, iter);
        ImprovedStep(ceiling, rs0, mainCircleRadius, innerCirclesPack, radiuses, mainCircleRadius', innerCirclesPack');
        mainCircleRadius, innerCirclesPack, newInnerCirclesPack := mainCircleRadius', innerCirclesPack', newInnerCirclesPack';
        SwappedKeepsPositive(radiuses, rounds[iter].0, rounds[iter].1);
        SwapCircles(rounds[iter].0, rounds[iter].1);
      }
    }

    /**
     * `find`: after `skipIteration` swaps, each of the `iterations` rounds
     * bisects for the least main radius `pack_circles` succeeds with, keeps
     * the packing when it beats the best so far, and swaps two radii.  The
     * random pairs are the input `draws`, in the order they are drawn.  The
     * result's main circle is at the origin with radius at most the ceiling
     * of the sum of the radii; either nothing better was found and the
     * inner circles are the unplaced defaults, or the inner circles are a
     * valid packing of that smaller radius holding the same radii.
     */
    method Find(skipIteration: Option<nat>, draws: seq<(nat, nat)>) returns (p: CirclesPacking)
      requires Valid()
      requires |draws| == (if skipIteration.Some? then skipIteration.value else 0) + iterations
      requires InRange(draws, |radiuses|)
      modifies this
      ensures radiuses == ApplySwaps(old(radiuses), draws, |draws|)
      ensures p.mainCircle == NewCircle(p.mainCircle.radius, Origin)
      ensures 0.0 <= p.mainCircle.radius <= Ceil(Sum(old(radiuses)))
      ensures || (p.innerCircles == Defaults(|old(radiuses)|) && p.mainCircle.radius == Ceil(Sum(old(radiuses))))
              || (&& p.mainCircle.radius < Ceil(Sum(old(radiuses)))
                  && ValidCircles(p.mainCircle.radius, p.innerCircles)
                  && multiset(Radii(p.innerCircles)) == multiset(old(radiuses)))
    {
      ghost var rs0 := radiuses;
      var skip := if skipIteration.Some? then skipIteration.value else 0;
      SkipSwaps(skip, draws);
      SumApplySwaps(rs0, draws, skip);
      SumNonNegative(radiuses);
      var radiusesSum := Ceil(Sum(radiuses));
      var rounds := draws[skip..];
      ApplySwapsAfterSkip(rs0, draws, skip);
      ApplySwapsPermutes(rs0, draws, skip);
      var mainCircleRadius, innerCirclesPack := Rounds(rounds, radiusesSum, rs0);
      p := CirclesPacking(NewCircle(mainCircleRadius, Origin), innerCirclesPack);
    }
}
}
