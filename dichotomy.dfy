/**
 * The step-size dichotomy around the r-algorithm (`dichotomy_step_ralgo` and
 * `smart_dichotomy_step_ralgo`).  The state is the flat vector `x` and the step
 * size.  Each round asks the optimizer for a candidate `y` at the current step;
 * `y` replaces `x` when it shrinks the main radius (the last component) by more
 * than the relative tolerance `eps`.  A rejected candidate halves the step; an
 * accepted one resets, keeps or doubles it, depending on the variant.
 *
 * The optimizer is the parameter `evaluate`, any function that keeps the length
 * of the vector.  The source loop has no bound when candidates keep being
 * accepted, so `Refine` takes a bound `fuel` on the number of optimizer calls.
 */
module Dichotomy {
  import opened Wrappers
  import opened Geometry
  import opened Packing

  const InitialStep: real := 40.96
  const MinStep: real := 0.01

  /** What an accepted candidate does to the step. */
  datatype StepPolicy =
    | Reset   // `reset_step == true`: back to the initial step
    | Keep    // `reset_step == false`: unchanged
    | Double  // the smart variant: doubled, capped at the initial step

  function Last(x: seq<real>): real
    requires |x| > 0
  {
    x[|x| - 1]
  }

  /**
   * `(last(x) - last(y)) / last(x) > eps`.  For `last(x) == 0` the quotient is
   * an IEEE division by positive zero: `+inf` (accepted) exactly when
   * `last(y) < 0`, and `-inf` or NaN (rejected) otherwise.
   */
  predicate Accepts(lx: real, ly: real, eps: real)
  {
    if lx != 0.0 then (lx - ly) / lx > eps else ly < 0.0
  }

  /** The step after one round. */
  function NextStep(policy: StepPolicy, step: real, accepted: bool): (r: real)
    ensures !accepted ==> r == step / 2.0
    ensures accepted && policy == Reset ==> r == InitialStep
    ensures accepted && policy == Keep ==> r == step
    ensures accepted && policy == Double ==> r <= InitialStep && r <= 2.0 * step && (r == 2.0 * step || r == InitialStep)
    ensures 0.0 < step <= InitialStep ==> 0.0 < r <= InitialStep
  {
    if !accepted then step / 2.0
    else
      match policy
      case Reset => InitialStep
      case Keep => step
      case Double => if step * 2.0 < InitialStep then step * 2.0 else InitialStep
  }

  /**
   * The steps of successive rounds, given which rounds accepted: the first is
   * the initial step, and each later one follows from its predecessor.  The
   * last entry is the step after the final round.
   */
  function Schedule(policy: StepPolicy, accepted: seq<bool>): (steps: seq<real>)
    ensures |steps| == |accepted| + 1
    ensures steps[0] == InitialStep
    ensures forall k :: 0 <= k < |steps| ==> 0.0 < steps[k] <= InitialStep
    ensures forall k :: 0 <= k < |accepted| ==> steps[k + 1] == NextStep(policy, steps[k], accepted[k])
  {
    if accepted == [] then [InitialStep]
    else
      var s := Schedule(policy, accepted[..|accepted| - 1]);
      s + [NextStep(policy, s[|s| - 1], accepted[|accepted| - 1])]
  }

  /** The optimizer keeps the length of its input. */
  ghost predicate PreservesLength(evaluate: (seq<real>, real) -> seq<real>)
  {
    forall v, h :: |evaluate(v, h)| == |v|
  }

  /**
   * Round `k` of a recorded run: the optimizer's candidate from state `xs[k]`
   * at step `steps[k]` was judged `accepted[k]` by the acceptance rule and
   * became the next state exactly when accepted.
   */
  predicate Round(xs: seq<seq<real>>, steps: seq<real>, accepted: seq<bool>, eps: real,
                  evaluate: (seq<real>, real) -> seq<real>, k: nat)
  {
    && k < |steps| && k < |accepted| && k + 1 < |xs| && |xs[k]| > 0
    && var y := evaluate(xs[k], steps[k]);
       && |y| > 0
       && accepted[k] == Accepts(Last(xs[k]), Last(y), eps)
       && xs[k + 1] == (if accepted[k] then y else xs[k])
  }

  /**
   * The recorded run so far: `xs`, `steps` and `accepted` describe the rounds
   * made from `x0`, which left the state `x` and the step `step`.
   */
  ghost predicate RunSoFar(x0: seq<real>, policy: StepPolicy, eps: real, evaluate: (seq<real>, real) -> seq<real>,
                           x: seq<real>, step: real, xs: seq<seq<real>>, steps: seq<real>, accepted: seq<bool>)
  {
    && |x| == |x0|
    && steps + [step] == Schedule(policy, accepted)
    && |xs| == |steps| + 1 && xs[0] == x0 && xs[|steps|] == x
    && (forall k :: 0 <= k < |xs| ==> |xs[k]| == |x0|)
    && |accepted| == |steps|
    && (forall k :: 0 <= k < |steps| ==> Round(xs, steps, accepted, eps, evaluate, k))
  }

  /** One more round extends the recorded run. */
  lemma RunStep(x0: seq<real>, policy: StepPolicy, eps: real, evaluate: (seq<real>, real) -> seq<real>,
                x: seq<real>, step: real, xs: seq<seq<real>>, steps: seq<real>, accepted: seq<bool>,
                y: seq<real>, accept: bool)
    requires |x0| > 0 && PreservesLength(evaluate)
    requires RunSoFar(x0, policy, eps, evaluate, x, step, xs, steps, accepted)
    requires y == evaluate(x, step) && accept == Accepts(Last(x), Last(y), eps)
    ensures RunSoFar(x0, policy, eps, evaluate, if accept then y else x, NextStep(policy, step, accept),
                     xs + [if accept then y else x], steps + [step], accepted + [accept])
  {
    var x', xs', steps', accepted' := if accept then y else x, xs + [if accept then y else x], steps + [step], accepted + [accept];
    assert accepted'[..|accepted|] == accepted;
    assert Round(xs', steps', accepted', eps, evaluate, |steps|);
    forall k | 0 <= k < |steps|
      ensures Round(xs', steps', accepted', eps, evaluate, k)
    {
      assert Round(xs, steps, accepted, eps, evaluate, k);
      assert xs'[k] == xs[k] && xs'[k + 1] == xs[k + 1] && steps'[k] == steps[k] && accepted'[k] == accepted[k];
    }
  }

  /**
   * The `while step_size >= 0.01` loop shared by both variants, with at most
   * `fuel` optimizer calls.  The ghost outputs record the run: `xs[k]` is the
   * state before round `k`, `steps[k]` its step and `accepted[k]` its verdict.
   */
  method Refine(x0: seq<real>, policy: StepPolicy, eps: real, evaluate: (seq<real>, real) -> seq<real>, fuel: nat)
    returns (x: seq<real>, step: real, ghost xs: seq<seq<real>>, ghost steps: seq<real>, ghost accepted: seq<bool>)
    requires |x0| > 0
    requires PreservesLength(evaluate)
    ensures |x| == |x0|
    ensures 0.0 < step <= InitialStep
    ensures |steps| <= fuel
    ensures |steps| < fuel ==> step < MinStep
    ensures forall k :: 0 <= k < |steps| ==> steps[k] >= MinStep
    ensures RunSoFar(x0, policy, eps, evaluate, x, step, xs, steps, accepted)
  {
    x := x0;
    step := InitialStep;
    xs, steps, accepted := [x0], [], [];
    var calls := 0;
    while step >= MinStep && calls < fuel
      invariant calls == |steps| <= fuel
      invariant forall k :: 0 <= k < |steps| ==> steps[k] >= MinStep
      invariant RunSoFar(x0, policy, eps, evaluate, x, step, xs, steps, accepted)
      decreases fuel - calls
    {
      var y := evaluate(x, step);
      var accept := Accepts(Last(x), Last(y), eps);
      RunStep(x0, policy, eps, evaluate, x, step, xs, steps, accepted, y, accept);
      steps, accepted := steps + [step], accepted + [accept];
      calls := calls + 1;
      x := if accept then y else x;
      step := NextStep(policy, step, accept);
      xs := xs + [x];
    }
    assert (steps + [step])[|steps|] == step;
  }

  /** `dichotomy_step_ralgo`: `resetStep` chooses between `Reset` and `Keep`. */
  method DichotomyStepRalgo(p: CirclesPacking, resetStep: bool, eps: real,
                            evaluate: (seq<real>, real) -> seq<real>, fuel: nat)
    returns (q: CirclesPacking, ghost radii: seq<real>,
             ghost xs: seq<seq<real>>, ghost steps: seq<real>, ghost accepted: seq<bool>, ghost step: real)
    requires AllPlaced(p.innerCircles)
    requires PreservesLength(evaluate)
    ensures |xs| == |steps| + 1
    ensures RunSoFar(IntoCoordsVec(p), if resetStep then Reset else Keep, eps, evaluate, xs[|xs| - 1], step, xs, steps, accepted)
    ensures q == FromCoordsVecAndRadiuses(xs[|xs| - 1], Radii(p.innerCircles))
    ensures radii == RadiusTrace(xs, |IntoCoordsVec(p)|)
    ensures |steps| <= fuel && (|steps| < fuel ==> step < MinStep)
    ensures forall k :: 0 <= k < |steps| ==> steps[k] >= MinStep
    ensures Radii(q.innerCircles) == Radii(p.innerCircles)
    ensures AllPlaced(q.innerCircles) && q.mainCircle.center == Some(Origin)
    ensures |radii| >= 1 && radii[0] == p.mainCircle.radius && radii[|radii| - 1] == q.mainCircle.radius
    ensures eps >= 0.0 ==> forall k :: 0 <= k < |radii| - 1 && radii[k] > 0.0 ==> radii[k + 1] <= radii[k]
  {
    var x0 := IntoCoordsVec(p);
    var x;
    x, step, xs, steps, accepted := Refine(x0, if resetStep then Reset else Keep, eps, evaluate, fuel);
    q := FromCoordsVecAndRadiuses(x, Radii(p.innerCircles));
    radii := RadiusTrace(xs, |x0|);
    RadiusNeverIncreases(xs, steps, accepted, eps, evaluate);
  }

  /** `smart_dichotomy_step_ralgo`: the `Double` policy. */
  method SmartDichotomyStepRalgo(p: CirclesPacking, eps: real,
                                 evaluate: (seq<real>, real) -> seq<real>, fuel: nat)
    returns (q: CirclesPacking, ghost radii: seq<real>,
             ghost xs: seq<seq<real>>, ghost steps: seq<real>, ghost accepted: seq<bool>, ghost step: real)
    requires AllPlaced(p.innerCircles)
    requires PreservesLength(evaluate)
    ensures |xs| == |steps| + 1
    ensures RunSoFar(IntoCoordsVec(p), Double, eps, evaluate, xs[|xs| - 1], step, xs, steps, accepted)
    ensures q == FromCoordsVecAndRadiuses(xs[|xs| - 1], Radii(p.innerCircles))
    ensures radii == RadiusTrace(xs, |IntoCoordsVec(p)|)
    ensures |steps| <= fuel && (|steps| < fuel ==> step < MinStep)
    ensures forall k :: 0 <= k < |steps| ==> steps[k] >= MinStep
    ensures Radii(q.innerCircles) == Radii(p.innerCircles)
    ensures AllPlaced(q.innerCircles) && q.mainCircle.center == Some(Origin)
    ensures |radii| >= 1 && radii[0] == p.mainCircle.radius && radii[|radii| - 1] == q.mainCircle.radius
    ensures eps >= 0.0 ==> forall k :: 0 <= k < |radii| - 1 && radii[k] > 0.0 ==> radii[k + 1] <= radii[k]
  {
    var x0 := IntoCoordsVec(p);
    var x;
    x, step, xs, steps, accepted := Refine(x0, Double, eps, evaluate, fuel);
    q := FromCoordsVecAndRadiuses(x, Radii(p.innerCircles));
    radii := RadiusTrace(xs, |x0|);
    RadiusNeverIncreases(xs, steps, accepted, eps, evaluate);
  }

  /** The main radius (last component) of every recorded state. */
  function RadiusTrace(xs: seq<seq<real>>, len: nat): (r: seq<real>)
    requires len > 0 && forall k :: 0 <= k < |xs| ==> |xs[k]| == len
    ensures |r| == |xs| && forall k :: 0 <= k < |xs| ==> r[k] == Last(xs[k])
  {
    seq(|xs|, k requires 0 <= k < |xs| => Last(xs[k]))
  }

  // ---------------------------------------------------------------- properties

  /** With `eps >= 0` and a positive radius, an accepted candidate has a strictly smaller radius. */
  lemma AcceptedShrinks(lx: real, ly: real, eps: real)
    requires eps >= 0.0 && lx > 0.0 && Accepts(lx, ly, eps)
    ensures ly < lx
  {
    assert (lx - ly) / lx > 0.0;
  }

  /** With `eps == 0` and a positive radius, a candidate is accepted exactly when it has a smaller radius. */
  lemma ZeroToleranceAcceptsSmaller(lx: real, ly: real)
    requires lx > 0.0
    ensures Accepts(lx, ly, 0.0) <==> ly < lx
  {
    if ly < lx {
      assert (lx - ly) / lx > 0.0;
    } else {
      assert (lx - ly) / lx <= 0.0;
    }
  }

  /** In every recorded run, the radius does not grow from a positive value. */
  lemma RadiusNeverIncreases(xs: seq<seq<real>>, steps: seq<real>, accepted: seq<bool>, eps: real,
                             evaluate: (seq<real>, real) -> seq<real>)
    requires |xs| == |steps| + 1 && |accepted| == |steps|
    requires forall k :: 0 <= k < |xs| ==> |xs[k]| > 0
    requires forall k :: 0 <= k < |steps| ==> Round(xs, steps, accepted, eps, evaluate, k)
    ensures eps >= 0.0 ==> forall k :: 0 <= k < |steps| && Last(xs[k]) > 0.0 ==>
      Last(xs[k + 1]) <= Last(xs[k]) && (accepted[k] ==> Last(xs[k + 1]) < Last(xs[k]))
  {
    if eps >= 0.0 {
      forall k | 0 <= k < |steps| && Last(xs[k]) > 0.0
        ensures Last(xs[k + 1]) <= Last(xs[k]) && (accepted[k] ==> Last(xs[k + 1]) < Last(xs[k]))
      {
        assert Round(xs, steps, accepted, eps, evaluate, k);
        if accepted[k] {
          AcceptedShrinks(Last(xs[k]), Last(evaluate(xs[k], steps[k])), eps);
        }
      }
    }
  }

  function Pow2(k: nat): (p: real)
    ensures p >= 1.0
  {
    if k == 0 then 1.0 else 2.0 * Pow2(k - 1)
  }

  function Rejections(n: nat): (r: seq<bool>)
    ensures |r| == n && forall k :: 0 <= k < n ==> !r[k]
  {
    seq(n, _ => false)
  }

  /** With every candidate rejected, round `k` runs at step `40.96 / 2^k`, whatever the policy. */
  lemma RejectedSchedule(policy: StepPolicy, n: nat)
    ensures forall k :: 0 <= k <= n ==> Schedule(policy, Rejections(n))[k] == InitialStep / Pow2(k)
  {
    forall k | 0 <= k <= n
      ensures Schedule(policy, Rejections(n))[k] == InitialStep / Pow2(k)
    {
      RejectedStep(policy, n, k);
    }
  }

  lemma {:induction false} RejectedStep(policy: StepPolicy, n: nat, k: nat)
    requires k <= n
    ensures Schedule(policy, Rejections(n))[k] == InitialStep / Pow2(k)
  {
    if k > 0 {
      RejectedStep(policy, n, k - 1);
      HalveQuotient(InitialStep, Pow2(k - 1));
    }
  }

  lemma HalveQuotient(a: real, p: real)
    requires p > 0.0
    ensures a / p / 2.0 == a / (2.0 * p)
  {
    var q := a / p;
    assert q * p == a;
    assert (q / 2.0) * (2.0 * p) == q * p;
  }

  lemma {:induction false} Pow2Mono(i: nat, j: nat)
    requires i <= j
    ensures Pow2(i) <= Pow2(j)
    decreases j
  {
    if i < j {
      Pow2Mono(i, j - 1);
    }
  }

  /** `40.96 / 2^k` is at least `0.01` exactly for `k <= 12`. */
  lemma HalvingsAboveMinStep(k: nat)
    ensures InitialStep / Pow2(k) >= MinStep <==> k <= 12
  {
    assert Pow2(12) == 4096.0;
    assert Pow2(13) == 8192.0;
    if k <= 12 {
      Pow2Mono(k, 12);
      assert InitialStep / Pow2(k) >= InitialStep / 4096.0;
    } else {
      Pow2Mono(13, k);
      assert InitialStep / Pow2(k) <= InitialStep / 8192.0;
    }
  }

  /**
   * A run in which every candidate is rejected and the loop ends because the
   * step fell below `0.01` makes exactly 13 optimizer calls.
   */
  lemma AllRejectedMakesThirteenCalls(policy: StepPolicy, n: nat)
    requires forall k :: 0 <= k < n ==> Schedule(policy, Rejections(n))[k] >= MinStep
    requires Schedule(policy, Rejections(n))[n] < MinStep
    ensures n == 13
  {
    RejectedSchedule(policy, n);
    HalvingsAboveMinStep(n);
    if n > 13 {
      HalvingsAboveMinStep(13);
    }
  }
}
