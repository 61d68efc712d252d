# Circle packing: a Dafny model

This project models the core of `improved_circles_packing`, a Rust program that packs circles of given radii into the smallest enclosing ("main") circle centred at the origin. The model covers five parts of that core.

- **Geometry** (`geometry.dfy`, module `Geometry`).
  - A circle is a radius and an optional centre; `None` means the circle is not placed yet.
  - The exact overlap and containment tests compare square roots. The "quad" tests compare squares and skip the sign check.
  - `Point` (`src/point.rs`) is folded into this module.
- **Packings and the flat vector** (`packing.dfy`, module `Packing`).
  - `CirclesPacking` is the main circle plus the ordered inner circles.
  - Two conversions go to and from the optimizer's state vector `[x1..xn, y1..yn, R]`.
  - `ValidCircles` is the exact validity test. `CirclesPacking::is_valid_pack` and the heuristic's free `is_valid_pack` both use it.
- **The penalty objective** (`penalty.dfy`, module `Penalty`).
  - `calcfg` is written as a method over two `array<real>` gradient buffers.
  - `Calcfg` is proved equal to a fold (`Accumulated`) that does the same additions in the same order.
  - The fold is proved equal to closed forms: the penalty cost, the per-coordinate gradient and the radius component. The properties are stated about those closed forms.
- **The step-size dichotomy** (`dichotomy.dfy`, module `Dichotomy`).
  - It wraps an opaque optimizer call, `evaluate: (seq<real>, real) -> seq<real>`, which must keep the vector's length.
  - It has three policies for an accepted candidate: reset the step, keep it, or double it (the "smart" variant).
  - The ghost outputs record every round, so the radius trace and the step schedule can be stated.
- **The heuristic constructor** (`heuristic.dfy` and `tangency.dfy`, modules `Heuristic` and `Tangency`).
  - `HeuristicAlgorithm` is a class.
  - `find` runs a restart loop with a ratio bisection on the main radius (`middle = left + (right - left) / 1.02`). Between rounds it swaps two radii.
  - `pack_circles` fills an `array<Circle>` in three stages: the rim layer, the small-circle layer, and later layers tangent to two placed circles. It returns the buffer only when the exact validity test accepts it.
  - The closed-form placement formulas are functions of plain reals. `sqrt`, `sin`, `cos` and the law-of-cosines angle are fields of a `Numerics` value passed in.
  - With an exact square root (`IsSqrt`), the model proves the rim-tangent centres and the two-circle-tangent centres are tangent.
  - The later layers call `find_third_circle_center`. The class field `corrected` chooses which version: `false` is the code as written (`src/heuristic_algo/mod.rs:337` calls the function whose horizontal branch has the flipped radicand of line 252), and `true` is the corrected radicand (see "## Findings"). Every contract of the later layers holds for both.

Modelling choices:
- `FloatType` (`f64`) is `real`.
- Each `sqrt(q) <= s` comparison is modelled exactly, without a root function: for the non-negative root of `q >= 0` it is `s >= 0 && q <= s * s` (`Geometry.SqrtAtMost`). `Geometry.SqrtAtMostExact` proves the two agree.
- `FloatType::INFINITY` from `distance` is `None`.
- `NEG_INFINITY` in the candidate search is `Alpha.NegInfinity`.
- In the dichotomy, the acceptance quotient at `last(x) == 0` follows IEEE division by `+0.0`: the candidate is accepted exactly when `last(y) < 0`.
- When the horizontal branch of `find_third_circle_center` or the x-axis branch of `find_tangent_circle_center` takes the root of a negative radicand, the code's coordinate is NaN, and a NaN centre fails `is_inside_main_circle_quad`. The model's `sqrt` of a negative number is an unconstrained real, so the later layers and the small-circle layer reject such a centre explicitly (`Tangency.NaNThirdCenter`, `Tangency.NaNTangentCenter`). With the code as written (`corrected == false`), this happens, for example, at the pair of "## Findings".
- The random generator of `swap_circles` becomes the input sequence `draws` of index pairs, each in `[0, n)`.

Notes on the code, which the model follows:
- Each round of `find` bisects between 0 and the best radius found so far, not the ceiling of the sum of the radii. The ceiling is only the starting bound (`src/heuristic_algo/mod.rs:29-31, 43`).
- Circle 0 goes to the top of the main circle whatever its radius. The rim layer then skips exactly the circles after circle 0 whose radius is in `[1, max_small_circle_radius]`, and the small-circle layer places only circles with such radii. Radii below 1 go on the rim.
- The small-circle layer places at most one small circle per rim circle.
- Its single-point branch is taken only when the previous centre is on the x axis (`yp == 0`). A centre on the y axis goes through the quadratic.
- A valid packing has every pair of centres strictly farther apart than the sum of their radii, because `overlap` counts touching circles (`distance <= radius_sum`). `Packing.ValidMeansSeparated` states it that way.
- The horizontal branch of `find_third_circle_center` (centres on one horizontal line) does not add the gap `delta`; the general branch does. The model keeps the difference.

## Model

| member | source | states |
|---|---|---|
| Geometry.NewCircle | src/circle.rs:10-15 | `Circle::new` gives a placed circle with exactly the given centre and radius |
| Geometry.WithRadius | src/circle.rs:17-22 | `Circle::with_radius` gives an unplaced circle with the given radius |
| Geometry.IsOverlap | src/circle.rs:49-51 | `is_overlap` holds exactly when some circle of the sequence overlaps `c` by the exact test (false on an empty sequence) |
| Geometry.IsOverlapQuad | src/circle.rs:53-55 | `is_overlap_quad` holds exactly when some circle of the sequence overlaps `c` by the squared test |
| Geometry.Distance | src/circle.rs:57-67 | `distance` is finite exactly when both circles are placed |
| Geometry.SqrtAtMostExact | src/circle.rs:26-31 | for an exact root `r` of `q`, `r <= s` holds exactly when `s >= 0 && q <= s²`, which justifies the root-free model of every `sqrt(..) <= ..` test |
| Geometry.OverlapCases | src/circle.rs:24-47 | `overlap_quad` (`Geometry.OverlapQuad`) and `overlap`: neither overlap test holds for an unplaced circle; `overlap_quad` is exactly `dx² + dy² <= (ra + rb)²`; touching circles overlap |
| Geometry.ContainmentCases | src/circle.rs:69-96 | `is_inside_main_circle_quad` (`Geometry.IsInsideMainCircleQuad`) and the other containment tests: no containment test holds for an unplaced circle; `is_inside_main_circle_quad` is exactly `x² + y² <= (R - r)²` |
| Geometry.OverlapSymmetric | src/circle.rs:24-47 | both overlap tests are symmetric in their two circles |
| Geometry.OverlapAgreesWithQuad | src/circle.rs:24-47 | with `ra + rb >= 0` the exact and the squared overlap tests agree |
| Geometry.InsideMainAgreesWithQuad | src/circle.rs:81-96 | with `R - r >= 0` the exact and the squared containment tests agree |
| Geometry.QuadContainmentSkipsSign | src/circle.rs:81-96 | a circle of radius 5 at the origin passes the squared containment test for a main radius of 1 and fails the exact test |
| Geometry.OverlapIsDistanceAtMostRadiusSum | src/circle.rs:24-35 | `overlap` (`Geometry.Overlap`): for an exact root, `overlap` is `distance <= ra + rb` on placed circles |
| Geometry.InsideIsDistanceAtMostRadiusDifference | src/circle.rs:69-79 | `inside` (`Geometry.Inside`): for an exact root, `inside` is `distance <= other.radius - self.radius` on placed circles |
| Geometry.InsideMainIsNormAtMost | src/circle.rs:81-88 | `is_inside_main_circle` (`Geometry.IsInsideMainCircle`): for an exact root, it is `sqrt(x² + y²) <= R - r` on a placed circle |
| Geometry.DistanceProperties | src/circle.rs:57-67 | for an exact root, `distance` is symmetric and, when finite, non-negative |
| Packing.Radii | src/dichotomy_step_ralgo.rs:14-18 | the radii of the inner circles, one per circle, in order |
| Packing.FromCoordsVecAndRadiuses | src/circles_packing.rs:18-38 | the main circle is at the origin with the last component as radius; inner circle `i` of `|x| / 2` has radius `radiuses[i]` and centre `(x[i], x[i + |x| / 2])` |
| Packing.IntoCoordsVec | src/circles_packing.rs:41-58 | for placed inner circles, a vector of length `2n + 1`: the x coordinates, then the y coordinates, then the main radius |
| Packing.IntoFromRoundTrip | src/circles_packing.rs:18-58 | flattening the packing unflattened from `x` (with `|x| == 2n + 1`) gives `x` back |
| Packing.FromIntoRoundTrip | src/circles_packing.rs:18-58 | unflattening a placed packing whose main circle is at the origin, with its own radii, gives the packing back |
| Packing.UnplacedIsInvalid | src/circles_packing.rs:60-78 | `is_valid_pack` (`Packing.ValidCircles`): an unplaced inner circle makes the validity test fail |
| Packing.ValidMeansSeparated | src/circles_packing.rs:60-78 | `is_valid_pack` (`Packing.ValidCircles`): for an exact root, in a valid packing every circle is placed with `sqrt(x² + y²) <= R - r`, and every two centres are farther apart than the sum of their radii |
| RealSeq.Swapped | src/heuristic_algo/mod.rs:395-398 | `Vec::swap`: entries `i` and `j` exchanged, every other entry and the length unchanged |
| RealSeq.SwappedPermutes | src/heuristic_algo/mod.rs:395-398 | a swap keeps the multiset of elements |
| RealSeq.SumSwapped | src/heuristic_algo/mod.rs:395-398 | a swap keeps the sum |
| RealSeq.SumNonNegative | src/heuristic_algo/mod.rs:29 | a sum of non-negative radii is non-negative |
| RealSeq.Min | src/calcfg.rs:73-76 | `min_by(partial_cmp)`: an element of the sequence at or below every element |
| Penalty.ContainStep | src/calcfg.rs:45-51 | the containment term keeps the gradient rows at length `n` |
| Penalty.PairStep | src/calcfg.rs:58-68 | the pair term keeps the gradient rows at length `n` |
| Penalty.Row | src/calcfg.rs:53-69 | the inner loop never lowers the cost and leaves the radius component alone |
| Penalty.Rows | src/calcfg.rs:41-70 | the outer loop never lowers the cost and never raises the radius component |
| Penalty.Accumulated | src/calcfg.rs:26-81 | the accumulators at the end keep rows of length `n` |
| Penalty.Gradient | src/calcfg.rs:5-20 | the returned gradient has length `2n + 1` |
| Penalty.ConcatGradients | src/calcfg.rs:5-20 | `concat_gradients` returns `gx`, then `gy`, then `gr` |
| Penalty.Transfer | src/calcfg.rs:64-67 | an overlapping pair moves `d` from coordinate `i` to coordinate `j` and changes nothing else |
| Penalty.AddPairTerms | src/calcfg.rs:53-69 | the inner loop leaves the cost and buffers that the fold's row `i` gives |
| Penalty.AddContainTerm | src/calcfg.rs:42-51 | the containment step leaves the cost, buffers and radius component that the fold's step gives |
| Penalty.Calcfg | src/calcfg.rs:22-84 | `calcfg` returns the fold's cost and gradient |
| Penalty.RowCost | src/calcfg.rs:58-60 | the pair costs of one row are non-negative |
| Penalty.CostFrom | src/calcfg.rs:41-70 | the containment and pair costs of the circles from `i` on are non-negative |
| Penalty.ContainCount | src/calcfg.rs:45-51 | the number of circles from `i` on that violate containment is at most `n - i` |
| Penalty.RowCostIs | src/calcfg.rs:53-69 | the inner loop adds exactly the row's pair costs to the cost |
| Penalty.RowsCostIs | src/calcfg.rs:41-70 | the outer loop adds exactly the containment and pair costs of the circles from `i` on |
| Penalty.CostIsPenalty | src/calcfg.rs:22-84 | the penalty cost (`Penalty.Cost`): the cost is `R` plus `P1 * temp` for each active containment and pair term, plus `P2 * temp` for an active radius term |
| Penalty.RowsRadiusGradient | src/calcfg.rs:45-51 | the outer loop lowers the radius component by `P2` per circle that violates containment |
| Penalty.RadiusGradientCounts | src/calcfg.rs:34-81 | `gr == 1 - P2 * (k + m)`, with `k` violating circles and `m` 1 exactly when `min(radiuses) > R` |
| Penalty.ContainStepProj | src/calcfg.rs:48-49 | an active containment term for circle `i` adds `P1 * c_i` to coordinate `i` only |
| Penalty.PairStepProj | src/calcfg.rs:61-67 | an active pair `(i, j)` subtracts `P1 * (c_i - c_j)` from coordinate `i`, adds it to coordinate `j`, and touches nothing else |
| Penalty.RowProj | src/calcfg.rs:53-69 | the inner loop for circle `i` changes coordinate `k` by exactly its pair terms with `i` |
| Penalty.RowsProjPast | src/calcfg.rs:41-70 | the outer loop from `i` on leaves the coordinates of earlier circles alone |
| Penalty.RowsProj | src/calcfg.rs:41-70 | the outer loop from `i` on gives circle `k >= i` its containment term, minus its pair terms with later circles, plus those with circles `i..k-1` |
| Penalty.GradientClosedForm | src/calcfg.rs:41-83 | every x and y gradient component is the circle's containment term minus its pair terms with later circles plus those with earlier ones |
| Penalty.PairStepSum | src/calcfg.rs:61-67 | a pair term leaves the coordinate sum unchanged (antisymmetry) |
| Penalty.RowSum | src/calcfg.rs:53-69 | the inner loop leaves the coordinate sum unchanged |
| Penalty.RowsSum | src/calcfg.rs:41-70 | the outer loop raises the coordinate sum by exactly the containment terms |
| Penalty.PairTermsCancel | src/calcfg.rs:41-83 | summed over all circles, the x (and y) gradient is the sum of `P1 * c_i` over the containment-violating circles only |
| Penalty.CostAtLeastMainRadius | src/calcfg.rs:36-81 | the cost is never below the main radius |
| Penalty.RowCostZero | src/calcfg.rs:58-60 | a row's pair cost is zero exactly when none of its pair terms is active |
| Penalty.CostFromZero | src/calcfg.rs:41-70 | the cost from circle `i` on is zero exactly when none of its containment or pair terms is active |
| Penalty.CostIsMainRadiusIffInactive | src/calcfg.rs:36-81 | the cost equals the main radius exactly when no containment, pair or radius term is active |
| Penalty.RowInactive | src/calcfg.rs:58-68 | with no active pair term the inner loop changes nothing |
| Penalty.RowsInactive | src/calcfg.rs:41-70 | with no active term the outer loop changes nothing |
| Penalty.InactiveGradient | src/calcfg.rs:22-84 | with no active term the cost is `R` and the gradient is all zeros except its last component, `1` |
| Dichotomy.NextStep | src/dichotomy_step_ralgo.rs:37-82 | a rejection halves the step; on acceptance the step resets to 40.96, stays, or becomes `min(2 * step, 40.96)` (never above `2 * step`); a step in `(0, 40.96]` stays there |
| Dichotomy.Schedule | src/dichotomy_step_ralgo.rs:23-45 | the steps start at 40.96, each follows from its predecessor and verdict, and all lie in `(0, 40.96]` |
| Dichotomy.RunStep | src/dichotomy_step_ralgo.rs:33-45 | one more round, with the candidate replacing `x` exactly when accepted, extends the recorded run |
| Dichotomy.Refine | src/dichotomy_step_ralgo.rs:33-45 | the loop keeps the length of `x` and a step in `(0, 40.96]`; every round ran at a step `>= 0.01`; unless the call bound stopped it, the final step is `< 0.01`; the ghost record holds every round |
| Dichotomy.DichotomyStepRalgo | src/dichotomy_step_ralgo.rs:8-48 | the ghost record is a run, from the packing's flat vector, of the policy `resetStep` chooses (`Reset` when true, `Keep` when false); every round ran at a step `>= 0.01`; the result is the packing unflattened from the run's last state with the input radii; the radius trace is that run's last components; unless `fuel` calls were made the final step is `< 0.01`; the result keeps the input radii in order, is placed with its main circle at the origin, and its radius trace starts at the input radius, ends at the result's, and never grows from a positive value when `eps >= 0` |
| Dichotomy.SmartDichotomyStepRalgo | src/dichotomy_step_ralgo.rs:50-87 | the same, for a run of the doubling policy |
| Dichotomy.RadiusTrace | src/dichotomy_step_ralgo.rs:25 | the main radius (last component) of every recorded state |
| Dichotomy.AcceptedShrinks | src/dichotomy_step_ralgo.rs:37 | the acceptance test (`Dichotomy.Accepts`): with `eps >= 0` and a positive radius, an accepted candidate has a strictly smaller radius |
| Dichotomy.ZeroToleranceAcceptsSmaller | src/dichotomy_step_ralgo.rs:37 | the acceptance test (`Dichotomy.Accepts`): with `eps == 0` and a positive radius, a candidate is accepted exactly when its radius is smaller |
| Dichotomy.RadiusNeverIncreases | src/dichotomy_step_ralgo.rs:33-45 | in every recorded run with `eps >= 0`, each round keeps or shrinks a positive radius, and an accepted round shrinks it strictly |
| Dichotomy.RejectedSchedule | src/dichotomy_step_ralgo.rs:23-45 | with every candidate rejected, round `k` runs at step `40.96 / 2^k`, whatever the policy |
| Dichotomy.RejectedStep | src/dichotomy_step_ralgo.rs:43 | the inductive step of `RejectedSchedule`, for one round `k` |
| Dichotomy.HalvingsAboveMinStep | src/dichotomy_step_ralgo.rs:33 | `40.96 / 2^k >= 0.01` exactly when `k <= 12` |
| Dichotomy.AllRejectedMakesThirteenCalls | src/dichotomy_step_ralgo.rs:23-45 | a run that rejects every candidate and ends on the step floor makes exactly 13 optimizer calls |
| Tangency.QuadraticRoot | src/heuristic_algo/mod.rs:181-184 | both `(-b ± sqrt(d)) / 2a` are roots when `sqrt(d)` is exact |
| Tangency.TangentLeadingPositive | src/heuristic_algo/mod.rs:171 | with `yp != 0` the leading coefficient is positive, so the division by `2a` is defined |
| Tangency.FindTangentCircleCenter | src/heuristic_algo/mod.rs:139-193 | `None` exactly when the previous circle is unplaced, at the origin, or (off the x axis) the discriminant is negative; otherwise one point on the x-axis branch and two off it |
| Tangency.RotatedPointOnCircle | src/heuristic_algo/mod.rs:81-86 | `get_rotated_point` (`Tangency.RotatedPoint`): for `sin² + cos² == 1`, the rotated point lies at distance `|yCoord|` from the origin |
| Tangency.RimNeighboursTouch | src/heuristic_algo/mod.rs:81-127 | `angle_between_prev_next_circles` (`Tangency.AngleBetweenPrevNextCircles`): when the cosine of the angle step is the law-of-cosines quotient, the two rim centres it separates are exactly `rp + rn + delta` apart |
| Tangency.ChordLength | src/heuristic_algo/mod.rs:81-99 | two points at distances `a` and `c` along unit directions are `a² + c² - 2ac cos` apart, squared |
| Tangency.CosineScoreScaled | src/heuristic_algo/mod.rs:98 | the law-of-cosines quotient times `2ac` is `a² + c² - b²` |
| Tangency.TangentQuadraticAsSquares | src/heuristic_algo/mod.rs:153-173 | the tangent quadratic at `x` is `p² x² + (t - 2 xp x)² - p² m²` |
| Tangency.TangentRootOnMainCircle | src/heuristic_algo/mod.rs:171-187 | a root of the tangent quadratic, on its line, is at distance `R - delta - rn` from the origin |
| Tangency.TangentRootOnPrevCircle | src/heuristic_algo/mod.rs:153-187 | a point on the line at that distance is at distance `rp + rn + delta` from the previous centre |
| Tangency.TangentPointTouches | src/heuristic_algo/mod.rs:153-187 | a root on its line touches both the main circle and the previous circle, with the gap |
| Tangency.TangentCentersTouch | src/heuristic_algo/mod.rs:139-193 | for an exact root and a previous centre off the x axis, both returned centres touch the previous circle and the main circle with the gap `delta` |
| Tangency.AxisPointTouches | src/heuristic_algo/mod.rs:162-166 | the x-axis branch's point, for an exact root of its radicand, touches both circles |
| Tangency.TangentCenterOnAxisTouches | src/heuristic_algo/mod.rs:157-168 | for an exact root and a non-negative radicand, the x-axis branch's centre touches the previous circle and the main circle with the gap |
| Tangency.ThirdLeadingPositive | src/heuristic_algo/mod.rs:262 | with `y1 != y2` the leading coefficient is positive, so the division by `2a` is defined |
| Tangency.FindThirdCircleCenterAsWritten | src/heuristic_algo/mod.rs:233-292 | `find_third_circle_center` as written: `None` exactly when a centre is missing, the centres are too far apart, they coincide, or (off one horizontal line) the quadratic has no real root; off the horizontal branch the result is the candidate nearer the origin |
| Tangency.FindThirdCircleCenter | src/heuristic_algo/mod.rs:233-292 | `None` exactly when a centre is missing, the centres are farther apart than `r1 + 2 r3 + r2`, they coincide, or the quadratic has no real root; otherwise off the horizontal branch it is the candidate nearer the origin |
| Tangency.ThirdCircleCenter | src/heuristic_algo/mod.rs:233-292 | the finder the later layers call (as written or corrected, by `corrected`): `None` exactly when a centre is missing, the centres are too far apart or coincide, or the quadratic has no real root; off the horizontal branch the nearer candidate |
| Tangency.ThirdQuadraticAsSquares | src/heuristic_algo/mod.rs:257-267 | the third-circle quadratic at `x` is `p²(x - x1)² + (t - p y1 - 2ex)² - p² s1²` |
| Tangency.ThirdRootTouchesFirst | src/heuristic_algo/mod.rs:257-280 | a root on its line is at distance `r1 + r3 + delta` from `c1` |
| Tangency.ThirdRootTouchesSecond | src/heuristic_algo/mod.rs:257-280 | a point on the line at that distance from `c1` is at distance `r2 + r3 + delta` from `c2` |
| Tangency.ThirdPointTouches | src/heuristic_algo/mod.rs:257-280 | a root on its line touches both widened circles |
| Tangency.RootTouches | src/heuristic_algo/mod.rs:276-280 | the same, stated for the two circle centres |
| Tangency.ThirdRootsTouch | src/heuristic_algo/mod.rs:269-280 | for an exact root, both candidates of the general branch touch both widened circles |
| Tangency.ThirdCenterTouches | src/heuristic_algo/mod.rs:233-292 | for an exact root and centres off one horizontal line, the returned centre touches `c1` and `c2` with the gap `delta` |
| Tangency.HorizontalPointTouches | src/heuristic_algo/mod.rs:244-254 | with the corrected radicand, the horizontal branch's point is at distance `r1 + r3` and `r2 + r3` from the two centres |
| Tangency.ThirdCenterOnLineTouches | src/heuristic_algo/mod.rs:244-254 | for an exact root and a non-negative radicand, the corrected horizontal branch returns a centre touching both circles (without gap) |
| Tangency.HorizontalRadicandSignFlipped | src/heuristic_algo/mod.rs:249-252 | for unit circles at (0, 0) and (3, 0) and `r3 = 1`, `x_3 = 1.5`, the pair is not too far apart, the radicand as written is -1.75, and the corrected one is 1.75 |
| Tangency.AsWrittenMissesTangency | src/heuristic_algo/mod.rs:249-254 | as written, a positive (as-written) radicand puts the horizontal branch's centre strictly farther than `r1 + r3` from `c1` |
| Tangency.EvalAlpha | src/heuristic_algo/mod.rs:294-300 | `eval_alpha` is `-inf` exactly when a centre is missing, and otherwise the law-of-cosines quotient of the widened sides |
| Tangency.EvalAlphaSymmetric | src/heuristic_algo/mod.rs:294-300 | `eval_alpha` does not depend on the order of the two circles |
| Tangency.CosineScoreSymmetric | src/heuristic_algo/mod.rs:299 | the quotient is symmetric in `a` and `b` |
| Tangency.CosineScoreFalls | src/heuristic_algo/mod.rs:299 | a third side at least as long gives a quotient no larger |
| Tangency.EvalAlphaFallsWithDistance | src/heuristic_algo/mod.rs:294-300 | for an exact root and equal radii, two placed centres at least as far apart score no higher |
| Heuristic.Defaults | src/heuristic_algo/mod.rs:34-36 | `find`'s starting packing: `n` unplaced circles of radius zero |
| Heuristic.Ceil | src/heuristic_algo/mod.rs:29 | `ceil`: the integer in `[x, x + 1)` |
| Heuristic.ApplySwaps | src/heuristic_algo/mod.rs:393-399 | the radii after the first `k` drawn swaps keep their length |
| Heuristic.IsValidPack | src/heuristic_algo/mod.rs:402-419 | the free `is_valid_pack` returns exactly `ValidCircles`, the predicate `CirclesPacking::is_valid_pack` also uses |
| Heuristic.PlaceKeepsSeparated | src/heuristic_algo/mod.rs:129-131 | placing a circle that overlaps no circle of a separated buffer keeps it separated |
| Heuristic.PlaceLowersUnplaced | src/heuristic_algo/mod.rs:362-365 | giving an unplaced circle a centre lowers the unplaced count by one |
| Heuristic.SumApplySwaps | src/heuristic_algo/mod.rs:22-29 | the skipped swaps keep the sum of the radii, so the starting bound does not depend on them |
| Heuristic.ApplySwapsPermutes | src/heuristic_algo/mod.rs:393-399 | any number of swaps keeps the multiset of radii |
| Heuristic.ApplySwapsSplit | src/heuristic_algo/mod.rs:22-67 | applying the first `skip` draws and then `m` more is applying `skip + m` |
| Heuristic.ApplySwapsAfterSkip | src/heuristic_algo/mod.rs:22-67 | the skipped swaps followed by the rounds' swaps are all the draws |
| Heuristic.SwappedKeepsPositive | src/heuristic_algo/mod.rs:393-399 | a swap keeps every radius positive |
| Heuristic.ImprovedStep | src/heuristic_algo/mod.rs:58-64 | a round that keeps the best or replaces it by a valid packing of a smaller radius keeps the best-so-far invariant |
| Heuristic.SmallPlacementKeeps | src/heuristic_algo/mod.rs:209-225 | placing a small circle at a centre offered next to a rim circle, not NaN and inside the main circle, keeps the small layer's invariant |
| Heuristic.SmallCircleTouchesRim | src/heuristic_algo/mod.rs:209-223 | for an exact root, a centre offered next to a circle off the x axis touches that circle and the main circle with the gap |
| Heuristic.SmallCircleOnAxisTouchesRim | src/heuristic_algo/mod.rs:157-168 | for an exact root, a centre offered next to a circle on the x axis that is not NaN touches that circle and the main circle with the gap |
| Heuristic.SmallLayerTouches | src/heuristic_algo/mod.rs:195-230 | for an exact root, every circle the small-circle layer placed touches the rim circle it was placed next to and the main circle, each with the gap |
| Heuristic.OtherPlacementKeeps | src/heuristic_algo/mod.rs:362-365 | placing a circle where the finder of the later layers (the code's `find_third_circle_center` when `corrected` is false) puts it from two placed circles keeps the later layers' invariant |
| Heuristic.Candidate | src/heuristic_algo/mod.rs:337-351 | the candidate of a pair: none for a placed circle, when the finder gives no centre (`NoThirdCenter`), or when the centre is NaN; otherwise the circle of the same radius at the finder's centre, given exactly when its centre is not NaN (`NaNThirdCenter`), it passes the squared containment test, and it overlaps no circle of the buffer by the squared test |
| Heuristic.AsWrittenHorizontalPairOffersNothing | src/heuristic_algo/mod.rs:337-351 | for unit circles at (0, 0) and (3, 0) and an unplaced unit circle, the pair offers no candidate as written, whatever `sqrt` is; the corrected radicand is not negative there |
| Heuristic.OtherLayerPlacement | src/heuristic_algo/mod.rs:347-365 | placing an admissible candidate keeps the later layers' invariant and the radii, lowers the unplaced count by one, and keeps a separated buffer separated |
| Heuristic.OnRimExtends | src/heuristic_algo/mod.rs:114-134 | a circle placed at the next rim angle extends the rim layer's record |
| Heuristic.FirstLayerStep | src/heuristic_algo/mod.rs:121-134 | placing a non-overlapping rim circle keeps the rim layer's invariant |
| Heuristic.FirstLayerSkip | src/heuristic_algo/mod.rs:110-112 | skipping a circle keeps the rim layer's invariant |
| Heuristic.CandidateScoreFinite | src/heuristic_algo/mod.rs:327-354 | an admissible pair has a finite score |
| Heuristic.BestKeep | src/heuristic_algo/mod.rs:333-358 | an inadmissible pair, or one scoring no higher, leaves the best-candidate state valid one step on |
| Heuristic.BestUpdate | src/heuristic_algo/mod.rs:352-358 | an admissible pair scoring higher becomes the best candidate |
| Heuristic.BestSkipPlaced | src/heuristic_algo/mod.rs:318-320 | a placed circle offers no candidate |
| Heuristic.BestNextRow | src/heuristic_algo/mod.rs:322-359 | scanning every shift of circle `i` is scanning up to circle `i + 1` |
| Heuristic.BestDone | src/heuristic_algo/mod.rs:315-360 | after the last circle the search state is the best admissible candidate over every pair |
| Heuristic.HeuristicAlgorithm.constructor | src/heuristic_algo/mod.rs:13-19 | the struct's fields, with the generator replaced by the draws passed to `Find`, plus `corrected`, which chooses the as-written (`false`) or corrected (`true`) `find_third_circle_center` for the later layers |
| Heuristic.HeuristicAlgorithm.PackFirstLayer | src/heuristic_algo/mod.rs:75-136 | circle 0 at `(0, R - delta - r0)` and pushed first; placed indices increase; every other rim circle is non-small and sits at its angle; no radius changes and no other circle moves; from an otherwise unplaced buffer the result is separated and its placed circles are exactly the pushed ones |
| Heuristic.HeuristicAlgorithm.RimCircle | src/heuristic_algo/mod.rs:110-134 | one step of the rim loop keeps the rim layer's invariant |
| Heuristic.HeuristicAlgorithm.PackSmallCircleLayer | src/heuristic_algo/mod.rs:195-230 | only unplaced circles get centres and no radius changes; every circle placed is small, inside the main circle by the squared test, and at a centre offered next to a rim circle that is not NaN; a separated buffer stays separated |
| Heuristic.HeuristicAlgorithm.BestCandidate | src/heuristic_algo/mod.rs:315-360 | `-inf` exactly when no pair is admissible; otherwise an admissible candidate with the greatest score over every unplaced circle and shift |
| Heuristic.HeuristicAlgorithm.ScanCircle | src/heuristic_algo/mod.rs:322-359 | the inner scan over the shifts of circle `i` keeps the search state |
| Heuristic.HeuristicAlgorithm.ConsiderPair | src/heuristic_algo/mod.rs:323-358 | one pair, with the early skips of the source, keeps the search state |
| Heuristic.HeuristicAlgorithm.PackOtherLayers | src/heuristic_algo/mod.rs:302-369 | only unplaced circles get centres and no radius changes; every circle placed is inside the main circle and where the finder chosen by `corrected` (the code's `find_third_circle_center` as written when false) puts it from two placed circles; a separated buffer stays separated; at most `n + 1` passes |
| Heuristic.HeuristicAlgorithm.PlaceBest | src/heuristic_algo/mod.rs:315-365 | one step of a pass: the search result is `-inf` exactly when no pair is admissible, and then the buffer and the next pass's list are unchanged; otherwise the buffer changes only at `index`, now an admissible candidate that no pair outscores, and `index` is appended to the list; the layers' invariant, positive radii and separation are kept |
| Heuristic.HeuristicAlgorithm.PlaceCandidate | src/heuristic_algo/mod.rs:362-365 | the buffer changes only at `index`, now the candidate, and `index` is appended to the next pass's list; the layers' invariant, positive radii and separation are kept |
| Heuristic.HeuristicAlgorithm.PackCircles | src/heuristic_algo/mod.rs:371-391 | a returned buffer passes the exact validity test, holds the radii in their order, and has circle 0 at the top of the main circle |
| Heuristic.HeuristicAlgorithm.SwapCircles | src/heuristic_algo/mod.rs:393-399 | `swap_circles` with the drawn pair exchanges the two radii |
| Heuristic.HeuristicAlgorithm.SkipSwaps | src/heuristic_algo/mod.rs:23-27 | the skipped swaps apply the first `skip` draws in order |
| Heuristic.HeuristicAlgorithm.Bisect | src/heuristic_algo/mod.rs:43-56 | the bracket stays within `[0, R]`; a bound below `R` comes with a valid packing of it holding the current radii; otherwise the previous packing is kept |
| Heuristic.HeuristicAlgorithm.ShrinkRound | src/heuristic_algo/mod.rs:43-64 | the best radius never grows, and a smaller one comes with a valid packing holding the current radii |
| Heuristic.HeuristicAlgorithm.Rounds | src/heuristic_algo/mod.rs:38-67 | after the rounds the radii are the drawn swaps applied in order, and the best-so-far invariant holds |
| Heuristic.HeuristicAlgorithm.Find | src/heuristic_algo/mod.rs:22-73 | the main circle is at the origin with radius in `[0, ceil(sum)]`; either nothing better was found and the inner circles are the unplaced defaults, or they are a valid packing of a smaller radius with the same multiset of radii |

## Left out

- `src/ralgo/mod.rs` and `src/ralgo/builder.rs` (the r-algorithm): its floating-point linear algebra is not part of this model. The dichotomy receives the optimizer as the function parameter `evaluate`.
- `src/heuristic_algo/builder.rs`: setters and defaults only. The class constructor takes the fields it would set.
- `src/main.rs`: the thread pool, parallel restarts, printing and timing are orchestration. It is not part of this model.
- `measure_time` (`src/utils.rs`), `CirclesPacking::print` and every `println!`: clocks and console output.
- `StdRng` and `gen_range`: replaced by the input sequence of drawn index pairs.
- Floating point: NaN (from `sqrt` or `acos` out of range, or `0/0`) is not modelled, except the NaN centres of the two horizontal branches described above. Rounding and `EPS = 1e-24` being absorbed are not modelled. `INFINITY` and `NEG_INFINITY` are modelled as `None` and `Alpha.NegInfinity`.
- `sqrt`, `sin`, `cos` and the `acos` of the law of cosines (`triangleAngle`): fields of `Numerics`. Nothing is assumed about them except in lemmas that name `IsSqrt` or `IsUnitCircle`.
- Dichotomy.Refine: the source loop has no bound while candidates keep being accepted, so the model takes a bound `fuel` on the optimizer calls. A run cut off by `fuel` leaves its step possibly still `>= 0.01`.
- Heuristic.HeuristicAlgorithm.PackCircles: requires positive radii and `delta >= 0` (`Valid`). With those, the sides `eval_alpha` divides by are positive. The source divides regardless, which gives infinities or NaN outside that range.
- Heuristic.HeuristicAlgorithm.BestCandidate, ScanCircle, ConsiderPair, PackOtherLayers, PlaceBest, PlaceCandidate: these require positive radii and `delta >= 0`, for the same reason.
- Heuristic.HeuristicAlgorithm.PackOtherLayers: does not state that the final pass placed nothing, nor that no admissible candidate remains. It states only what each placement guarantees. That each step places the best admissible candidate is stated by `PlaceBest`, one step at a time.
- Heuristic.HeuristicAlgorithm.PackSmallCircleLayer: states only soundness. It does not state that a small circle is placed whenever an admissible centre exists.
- Heuristic.HeuristicAlgorithm.PackFirstLayer: does not state which non-small circles were skipped for overlapping.
- Heuristic.HeuristicAlgorithm.Bisect: does not state that `pack_circles` fails at the final `left`, because `pack_circles` is a method and cannot appear in a contract.
- Heuristic.HeuristicAlgorithm.RimCircle, ScanCircle, ConsiderPair, PlaceBest, PlaceCandidate, Penalty.AddContainTerm, Penalty.AddPairTerms: these are loop bodies of the source's functions, split out as methods. They are not separate source functions.
- Tangency.RimNeighboursTouch: takes as a hypothesis that the cosine of the angle step is the law-of-cosines quotient, because `acos` is the opaque `triangleAngle` field of `Numerics`.
- Penalty.Calcfg: requires `|x| >= 2n` and a non-empty `radiuses`, which is what the source's row slices, last-element index and `min().unwrap()` need. A vector longer than `2n + 1` is accepted.

## Findings

The heuristic takes both versions of `find_third_circle_center` through `Tangency.ThirdCircleCenter`. With `corrected == false` it models the code as written. With `corrected == true` it runs the corrected finder, whose horizontal branch `Tangency.ThirdCenterOnLineTouches` proves tangent. The general branch is the same in both versions.

| source | as written | input that shows it | evidently intended | confidence | as-written member | corrected member |
|---|---|---|---|---|---|---|
| src/heuristic_algo/mod.rs:252 | `y_3 = sqrt((x1 - x_3)² - (r1 + r3)²) + y1` | unit circles centred at (0, 0) and (3, 0), `r3 = 1`: `x_3 = 1.5`, so the radicand is `2.25 - 4 = -1.75` and `y_3` is NaN, although a circle of radius 1 touches both at `(1.5, sqrt(1.75))` | `y_3 = sqrt((r1 + r3)² - (x1 - x_3)²) + y1`, which puts the centre at distance `r1 + r3` from `c1` and `r2 + r3` from `c2` | not executed | Tangency.FindThirdCircleCenterAsWritten, Tangency.HorizontalRadicandSignFlipped, Tangency.AsWrittenMissesTangency | Tangency.FindThirdCircleCenter, Tangency.ThirdCenterOnLineTouches |
