/**
 * The exterior-penalty objective `calcfg` and its gradient.
 *
 * The state vector is `[x1..xn, y1..yn, R]`.  The cost starts at `R`; every
 * circle that leaves the main circle, every overlapping pair and a main radius
 * below the smallest inner radius add a positive penalty.  The gradient has the
 * same layout.
 *
 * `Calcfg` mirrors the source's loops over two arrays.  It is proved equal to
 * `Accumulated`, a fold that performs the same additions in the same order;
 * the fold is in turn proved equal to closed forms (`PenaltyCost`,
 * `GradientComponent`, `RadiusGradient`), about which the properties are stated.
 */
module Penalty {
  import opened RealSeq

  const P1: real := 2000.0
  const P2: real := 1000.0
  const Eps: real := 1.0e-24

  /** What `calcfg` demands: a radius to take the minimum of, and room for the `x` and `y` rows. */
  predicate WellFormed(x: seq<real>, rs: seq<real>)
  {
    |rs| >= 1 && |x| >= 2 * |rs|
  }

  /** The main radius is the last component of the state vector. */
  function MainRadius(x: seq<real>): real
    requires |x| >= 1
  {
    x[|x| - 1]
  }

  /** Containment violation of circle `i`: positive when it reaches out of the main circle. */
  function ContainTemp(x: seq<real>, rs: seq<real>, i: nat): real
    requires WellFormed(x, rs) && i < |rs|
  {
    var n := |rs|;
    var d := MainRadius(x) - rs[i];
    x[i] * x[i] + x[n + i] * x[n + i] - d * d + Eps
  }

  /** Overlap violation of circles `i` and `j`: positive when they overlap. */
  function PairTemp(x: seq<real>, rs: seq<real>, i: nat, j: nat): real
    requires WellFormed(x, rs) && i < |rs| && j < |rs|
  {
    var n := |rs|;
    var dx := x[i] - x[j];
    var dy := x[n + i] - x[n + j];
    var s := rs[i] + rs[j];
    -(dx * dx + dy * dy) + s * s + Eps
  }

  /** Radius-feasibility violation: positive when the main radius is below the smallest radius. */
  function MinTemp(x: seq<real>, rs: seq<real>): real
    requires WellFormed(x, rs)
  {
    -MainRadius(x) + Min(rs)
  }

  // ------------------------------------------------ the loop, as a fold

  /** The accumulators of `calcfg`: the cost `f`, the vectors `gx`, `gy` and the radius component `gr`. */
  datatype Acc = Acc(f: real, gx: seq<real>, gy: seq<real>, gr: real)

  predicate Shaped(a: Acc, n: nat)
  {
    |a.gx| == n && |a.gy| == n
  }

  function Zeros(n: nat): (z: seq<real>)
    ensures |z| == n && forall k :: 0 <= k < n ==> z[k] == 0.0
  {
    seq(n, _ => 0.0)
  }

  /** The accumulators before the loop. */
  function Init(x: seq<real>, rs: seq<real>): Acc
    requires WellFormed(x, rs)
  {
    Acc(MainRadius(x), Zeros(|rs|), Zeros(|rs|), 1.0)
  }

  /** The containment term of circle `i`. */
  function ContainStep(x: seq<real>, rs: seq<real>, i: nat, a: Acc): (b: Acc)
    requires WellFormed(x, rs) && i < |rs| && Shaped(a, |rs|)
    ensures Shaped(b, |rs|)
  {
    var n := |rs|;
    var t := ContainTemp(x, rs, i);
    if t > 0.0 then
      Acc(a.f + P1 * t, a.gx[i := a.gx[i] + P1 * x[i]], a.gy[i := a.gy[i] + P1 * x[n + i]], a.gr - P2)
    else a
  }

  /** The pair term of circles `i < j`. */
  function PairStep(x: seq<real>, rs: seq<real>, i: nat, j: nat, a: Acc): (b: Acc)
    requires WellFormed(x, rs) && i < j < |rs| && Shaped(a, |rs|)
    ensures Shaped(b, |rs|)
  {
    var n := |rs|;
    var t := PairTemp(x, rs, i, j);
    if t > 0.0 then
      var sx := P1 * (x[i] - x[j]);
      var sy := P1 * (x[n + i] - x[n + j]);
      Acc(a.f + P1 * t,
          a.gx[i := a.gx[i] - sx][j := a.gx[j] + sx],
          a.gy[i := a.gy[i] - sy][j := a.gy[j] + sy],
          a.gr)
    else a
  }

  /** The inner loop: pair terms `(i, j), (i, j + 1), ..., (i, n - 1)`. */
  function Row(x: seq<real>, rs: seq<real>, i: nat, j: nat, a: Acc): (b: Acc)
    requires WellFormed(x, rs) && i < |rs| && i < j <= |rs| && Shaped(a, |rs|)
    ensures Shaped(b, |rs|) && b.f >= a.f && b.gr == a.gr
    decreases |rs| - j
  {
    if j == |rs| then a else Row(x, rs, i, j + 1, PairStep(x, rs, i, j, a))
  }

  /** The outer loop from circle `i` on: each circle's containment term, then its row of pair terms. */
  function Rows(x: seq<real>, rs: seq<real>, i: nat, a: Acc): (b: Acc)
    requires WellFormed(x, rs) && i <= |rs| && Shaped(a, |rs|)
    ensures Shaped(b, |rs|) && b.f >= a.f && b.gr <= a.gr
    decreases |rs| - i
  {
    if i == |rs| then a
    else Rows(x, rs, i + 1, Row(x, rs, i, i + 1, ContainStep(x, rs, i, a)))
  }

  /** The radius-feasibility term after the loop. */
  function MinStep(x: seq<real>, rs: seq<real>, a: Acc): Acc
    requires WellFormed(x, rs)
  {
    var t := MinTemp(x, rs);
    if t > 0.0 then Acc(a.f + P2 * t, a.gx, a.gy, a.gr - P2) else a
  }

  /** The accumulators when `calcfg` returns. */
  function Accumulated(x: seq<real>, rs: seq<real>): (a: Acc)
    requires WellFormed(x, rs)
    ensures Shaped(a, |rs|)
  {
    MinStep(x, rs, Rows(x, rs, 0, Init(x, rs)))
  }

  /** The cost `calcfg` returns. */
  function Cost(x: seq<real>, rs: seq<real>): real
    requires WellFormed(x, rs)
  {
    Accumulated(x, rs).f
  }

  /** The gradient `calcfg` returns, laid out `[gx, gy, gr]` as in `concat_gradients`. */
  function Gradient(x: seq<real>, rs: seq<real>): (g: seq<real>)
    requires WellFormed(x, rs)
    ensures |g| == 2 * |rs| + 1
  {
    var a := Accumulated(x, rs);
    a.gx + a.gy + [a.gr]
  }

  // ------------------------------------------------ the source's code

  /** `concat_gradients`: a zeroed buffer of length `2n + 1` filled with `gx`, then `gy`, then `gr`. */
  method ConcatGradients(gx: seq<real>, gy: seq<real>, gr: real) returns (g: seq<real>)
    requires |gx| == |gy|
    ensures g == gx + gy + [gr]
  {
    var n := |gx|;
    var gradient := new real[2 * n + 1](_ => 0.0);
    for k := 0 to n
      invariant forall m :: 0 <= m < k ==> gradient[m] == gx[m]
    {
      gradient[k] := gx[k];
    }
    for k := 0 to n
      invariant forall m :: 0 <= m < n ==> gradient[m] == gx[m]
      invariant forall m :: 0 <= m < k ==> gradient[n + m] == gy[m]
    {
      gradient[n + k] := gy[k];
    }
    gradient[2 * n] := gr;
    g := gradient[..];
    assert forall m :: 0 <= m < |g| ==> g[m] == (gx + gy + [gr])[m];
  }

  /** `g[i] -= d; g[j] += d`: the gradient update of one overlapping pair along one axis. */
  method Transfer(g: array<real>, i: nat, j: nat, d: real)
    requires i < j < g.Length
    modifies g
    ensures g[..] == old(g[..])[i := old(g[i]) - d][j := old(g[j]) + d]
  {
    g[i] := g[i] - d;
    g[j] := g[j] + d;
  }

  /** The inner loop of `calcfg`: the pair terms of circle `i` with every later circle. */
  method AddPairTerms(x: seq<real>, radiuses: seq<real>, i: nat, gx: array<real>, gy: array<real>, f0: real, ghost gr: real)
    returns (f: real)
    requires WellFormed(x, radiuses) && i < |radiuses|
    requires gx.Length == |radiuses| && gy.Length == |radiuses| && gx != gy
    modifies gx, gy
    ensures Acc(f, gx[..], gy[..], gr) == Row(x, radiuses, i, i + 1, Acc(f0, old(gx[..]), old(gy[..]), gr))
  {
    var n := |radiuses|;
    var cxi, cyi := x[i], x[n + i];
    f := f0;
    ghost var acc := Acc(f, gx[..], gy[..], gr);
    ghost var rowEnd := Row(x, radiuses, i, i + 1, acc);
    for j := i + 1 to n
      invariant acc == Acc(f, gx[..], gy[..], gr)
      invariant Shaped(acc, n) && Row(x, radiuses, i, j, acc) == rowEnd
    {
      var cxDiff := cxi - x[j];
      var cyDiff := cyi - x[n + j];
      var temp := PairTemp(x, radiuses, i, j);
      ghost var next := PairStep(x, radiuses, i, j, acc);
      if temp > 0.0 {
        f := f + P1 * temp;
        var scaledCx := P1 * cxDiff;
        var scaledCy := P1 * cyDiff;
        Transfer(gx, i, j, scaledCx);
        Transfer(gy, i, j, scaledCy);
      }
      acc := next;
    }
  }

  /** The containment term of circle `i` in the outer loop of `calcfg`. */
  method AddContainTerm(x: seq<real>, radiuses: seq<real>, i: nat, gx: array<real>, gy: array<real>, f0: real, gr0: real)
    returns (f: real, gr: real)
    requires WellFormed(x, radiuses) && i < |radiuses|
    requires gx.Length == |radiuses| && gy.Length == |radiuses| && gx != gy
    modifies gx, gy
    ensures Acc(f, gx[..], gy[..], gr) == ContainStep(x, radiuses, i, Acc(f0, old(gx[..]), old(gy[..]), gr0))
  {
    var n := |radiuses|;
    var cxi, cyi := x[i], x[n + i];
    f, gr := f0, gr0;
    var temp := ContainTemp(x, radiuses, i);
    if temp > 0.0 {
      f := f + P1 * temp;
      gx[i] := gx[i] + P1 * cxi;
      gy[i] := gy[i] + P1 * cyi;
      gr := gr - P2;
    }
  }

  /** `calcfg`: the penalty cost and its gradient. */
  method Calcfg(x: seq<real>, radiuses: seq<real>) returns (f: real, g: seq<real>)
    requires WellFormed(x, radiuses)
    ensures f == Cost(x, radiuses)
    ensures g == Gradient(x, radiuses)
  {
    var n := |radiuses|;
    var mainCircleRadius := x[|x| - 1];
    var gx := new real[n](_ => 0.0);
    var gy := new real[n](_ => 0.0);
    var gr := 1.0;
    f := mainCircleRadius;
    ghost var total := Rows(x, radiuses, 0, Init(x, radiuses));
    assert gx[..] == Zeros(n) && gy[..] == Zeros(n);

    for i := 0 to n
      invariant gx.Length == n && gy.Length == n && gx != gy
      invariant Rows(x, radiuses, i, Acc(f, gx[..], gy[..], gr)) == total
    {
      f, gr := AddContainTerm(x, radiuses, i, gx, gy, f, gr);
      f := AddPairTerms(x, radiuses, i, gx, gy, f, gr);
    }

    var temp := -mainCircleRadius + Min(radiuses);
    if temp > 0.0 {
      f := f + P2 * temp;
      gr := gr - P2;
    }
    g := ConcatGradients(gx[..], gy[..], gr);
  }

  // ------------------------------------------------ closed forms

  function ContainCost(x: seq<real>, rs: seq<real>, i: nat): (c: real)
    requires WellFormed(x, rs) && i < |rs|
  {
    var t := ContainTemp(x, rs, i);
    if t > 0.0 then P1 * t else 0.0
  }

  function PairCost(x: seq<real>, rs: seq<real>, i: nat, j: nat): real
    requires WellFormed(x, rs) && i < |rs| && j < |rs|
  {
    var t := PairTemp(x, rs, i, j);
    if t > 0.0 then P1 * t else 0.0
  }

  function MinCost(x: seq<real>, rs: seq<real>): real
    requires WellFormed(x, rs)
  {
    var t := MinTemp(x, rs);
    if t > 0.0 then P2 * t else 0.0
  }

  /** Sum of the pair costs `(i, j'), j <= j' < n`. */
  function RowCost(x: seq<real>, rs: seq<real>, i: nat, j: nat): (c: real)
    requires WellFormed(x, rs) && i < |rs| && j <= |rs|
    ensures c >= 0.0
    decreases |rs| - j
  {
    if j == |rs| then 0.0 else PairCost(x, rs, i, j) + RowCost(x, rs, i, j + 1)
  }

  /** Sum of the containment and pair costs of circles `i' >= i`. */
  function CostFrom(x: seq<real>, rs: seq<real>, i: nat): (c: real)
    requires WellFormed(x, rs) && i <= |rs|
    ensures c >= 0.0
    decreases |rs| - i
  {
    if i == |rs| then 0.0
    else ContainCost(x, rs, i) + RowCost(x, rs, i, i + 1) + CostFrom(x, rs, i + 1)
  }

  /** The penalty function: `R` plus every active term. */
  function PenaltyCost(x: seq<real>, rs: seq<real>): real
    requires WellFormed(x, rs)
  {
    MainRadius(x) + CostFrom(x, rs, 0) + MinCost(x, rs)
  }

  /** Number of circles `i' >= i` that violate containment. */
  function ContainCount(x: seq<real>, rs: seq<real>, i: nat): (k: nat)
    requires WellFormed(x, rs) && i <= |rs|
    ensures k <= |rs| - i
    decreases |rs| - i
  {
    if i == |rs| then 0
    else (if ContainTemp(x, rs, i) > 0.0 then 1 else 0) + ContainCount(x, rs, i + 1)
  }

  /** The radius component of the gradient: 1, less `P2` per violating circle and for the radius-feasibility term. */
  function RadiusGradient(x: seq<real>, rs: seq<real>): real
    requires WellFormed(x, rs)
  {
    1.0 - P2 * ((ContainCount(x, rs, 0) + (if MinTemp(x, rs) > 0.0 then 1 else 0)) as real)
  }

  /** `off` selects the coordinate: 0 for x, `n` for y. */
  predicate Coordinate(rs: seq<real>, off: nat)
  {
    off == 0 || off == |rs|
  }

  /** The `off`-coordinate gradient row of the accumulators. */
  function Proj(a: Acc, off: nat): seq<real>
  {
    if off == 0 then a.gx else a.gy
  }

  /** Containment contribution of circle `i` to its own gradient coordinate. */
  function ContainG(x: seq<real>, rs: seq<real>, off: nat, i: nat): real
    requires WellFormed(x, rs) && Coordinate(rs, off) && i < |rs|
  {
    if ContainTemp(x, rs, i) > 0.0 then P1 * x[off + i] else 0.0
  }

  /** Pair contribution of `(i, j)`: subtracted from circle `i`, added to circle `j`. */
  function PairG(x: seq<real>, rs: seq<real>, off: nat, i: nat, j: nat): real
    requires WellFormed(x, rs) && Coordinate(rs, off) && i < |rs| && j < |rs|
  {
    if PairTemp(x, rs, i, j) > 0.0 then P1 * (x[off + i] - x[off + j]) else 0.0
  }

  /** Sum of `PairG(k, j')` for `j <= j' < n`: what circle `k` loses to later circles. */
  function OutSum(x: seq<real>, rs: seq<real>, off: nat, k: nat, j: nat): real
    requires WellFormed(x, rs) && Coordinate(rs, off) && k < |rs| && j <= |rs|
    decreases |rs| - j
  {
    if j == |rs| then 0.0 else PairG(x, rs, off, k, j) + OutSum(x, rs, off, k, j + 1)
  }

  /** Sum of `PairG(i', k)` for `i <= i' < k`: what circle `k` gains from earlier circles. */
  function InSum(x: seq<real>, rs: seq<real>, off: nat, k: nat, i: nat): real
    requires WellFormed(x, rs) && Coordinate(rs, off) && k < |rs|
    decreases k - i
  {
    if i >= k then 0.0 else PairG(x, rs, off, i, k) + InSum(x, rs, off, k, i + 1)
  }

  /** The gradient coordinate of circle `k`: its containment term, less its pair terms with later circles, plus those with earlier ones. */
  function GradientComponent(x: seq<real>, rs: seq<real>, off: nat, k: nat): real
    requires WellFormed(x, rs) && Coordinate(rs, off) && k < |rs|
  {
    ContainG(x, rs, off, k) - OutSum(x, rs, off, k, k + 1) + InSum(x, rs, off, k, 0)
  }

  /** Sum of the containment contributions of circles `i' >= i`. */
  function ContainGSum(x: seq<real>, rs: seq<real>, off: nat, i: nat): real
    requires WellFormed(x, rs) && Coordinate(rs, off) && i <= |rs|
    decreases |rs| - i
  {
    if i == |rs| then 0.0 else ContainG(x, rs, off, i) + ContainGSum(x, rs, off, i + 1)
  }

  /** No containment, pair or radius-feasibility term is active. */
  predicate NoActiveTerm(x: seq<real>, rs: seq<real>)
    requires WellFormed(x, rs)
  {
    && (forall i :: 0 <= i < |rs| ==> ContainTemp(x, rs, i) <= 0.0)
    && (forall i, j :: 0 <= i < j < |rs| ==> PairTemp(x, rs, i, j) <= 0.0)
    && MinTemp(x, rs) <= 0.0
  }

  // ------------------------------------------------ the fold against the closed forms

  lemma {:induction false} RowCostIs(x: seq<real>, rs: seq<real>, i: nat, j: nat, a: Acc)
    requires WellFormed(x, rs) && i < |rs| && i < j <= |rs| && Shaped(a, |rs|)
    ensures Row(x, rs, i, j, a).f == a.f + RowCost(x, rs, i, j)
    decreases |rs| - j
  {
    if j < |rs| {
      RowCostIs(x, rs, i, j + 1, PairStep(x, rs, i, j, a));
    }
  }

  lemma {:induction false} RowsCostIs(x: seq<real>, rs: seq<real>, i: nat, a: Acc)
    requires WellFormed(x, rs) && i <= |rs| && Shaped(a, |rs|)
    ensures Rows(x, rs, i, a).f == a.f + CostFrom(x, rs, i)
    decreases |rs| - i
  {
    if i < |rs| {
      var c := ContainStep(x, rs, i, a);
      RowCostIs(x, rs, i, i + 1, c);
      RowsCostIs(x, rs, i + 1, Row(x, rs, i, i + 1, c));
    }
  }

  /** The cost `calcfg` computes is the penalty function. */
  lemma CostIsPenalty(x: seq<real>, rs: seq<real>)
    requires WellFormed(x, rs)
    ensures Cost(x, rs) == PenaltyCost(x, rs)
  {
    RowsCostIs(x, rs, 0, Init(x, rs));
  }

  lemma {:induction false} RowsRadiusGradient(x: seq<real>, rs: seq<real>, i: nat, a: Acc)
    requires WellFormed(x, rs) && i <= |rs| && Shaped(a, |rs|)
    ensures Rows(x, rs, i, a).gr == a.gr - P2 * (ContainCount(x, rs, i) as real)
    decreases |rs| - i
  {
    if i < |rs| {
      var c := ContainStep(x, rs, i, a);
      RowsRadiusGradient(x, rs, i + 1, Row(x, rs, i, i + 1, c));
    }
  }

  /** The last gradient component is `1 - P2 * (k + m)`: `k` violating circles, `m` for the radius-feasibility term. */
  lemma RadiusGradientCounts(x: seq<real>, rs: seq<real>)
    requires WellFormed(x, rs)
    ensures Gradient(x, rs)[2 * |rs|] == RadiusGradient(x, rs)
  {
    RowsRadiusGradient(x, rs, 0, Init(x, rs));
  }

  lemma ContainStepProj(x: seq<real>, rs: seq<real>, off: nat, i: nat, a: Acc, k: nat)
    requires WellFormed(x, rs) && Coordinate(rs, off) && i < |rs| && Shaped(a, |rs|) && k < |rs|
    ensures Proj(ContainStep(x, rs, i, a), off)[k] == Proj(a, off)[k] + (if k == i then ContainG(x, rs, off, i) else 0.0)
  {
  }

  lemma PairStepProj(x: seq<real>, rs: seq<real>, off: nat, i: nat, j: nat, a: Acc, k: nat)
    requires WellFormed(x, rs) && Coordinate(rs, off) && i < j < |rs| && Shaped(a, |rs|) && k < |rs|
    ensures Proj(PairStep(x, rs, i, j, a), off)[k] ==
      Proj(a, off)[k] - (if k == i then PairG(x, rs, off, i, j) else 0.0) + (if k == j then PairG(x, rs, off, i, j) else 0.0)
  {
  }

  lemma {:induction false} RowProj(x: seq<real>, rs: seq<real>, off: nat, i: nat, j: nat, a: Acc, k: nat)
    requires WellFormed(x, rs) && Coordinate(rs, off) && i < |rs| && i < j <= |rs| && Shaped(a, |rs|) && k < |rs|
    ensures Proj(Row(x, rs, i, j, a), off)[k] ==
      Proj(a, off)[k] - (if k == i then OutSum(x, rs, off, i, j) else 0.0) + (if j <= k then PairG(x, rs, off, i, k) else 0.0)
    decreases |rs| - j
  {
    if j < |rs| {
      PairStepProj(x, rs, off, i, j, a, k);
      RowProj(x, rs, off, i, j + 1, PairStep(x, rs, i, j, a), k);
    }
  }

  /** Circles before `i` are not touched by the loop from `i` on. */
  lemma {:induction false} RowsProjPast(x: seq<real>, rs: seq<real>, off: nat, i: nat, a: Acc, k: nat)
    requires WellFormed(x, rs) && Coordinate(rs, off) && k < i <= |rs| && Shaped(a, |rs|)
    ensures Proj(Rows(x, rs, i, a), off)[k] == Proj(a, off)[k]
    decreases |rs| - i
  {
    if i < |rs| {
      var c := ContainStep(x, rs, i, a);
      assert Proj(c, off)[k] == Proj(a, off)[k];
      var b := Row(x, rs, i, i + 1, c);
      assert Rows(x, rs, i, a) == Rows(x, rs, i + 1, b);
      RowProj(x, rs, off, i, i + 1, c, k);
      RowsProjPast(x, rs, off, i + 1, b, k);
    }
  }

  /** The loop from `i` on gives circle `k >= i` its containment term, its pair terms with later circles, and those with circles `i..k-1`. */
  lemma {:induction false} RowsProj(x: seq<real>, rs: seq<real>, off: nat, i: nat, a: Acc, k: nat)
    requires WellFormed(x, rs) && Coordinate(rs, off) && i <= k < |rs| && Shaped(a, |rs|)
    ensures Proj(Rows(x, rs, i, a), off)[k] ==
      Proj(a, off)[k] + ContainG(x, rs, off, k) - OutSum(x, rs, off, k, k + 1) + InSum(x, rs, off, k, i)
    decreases |rs| - i
  {
    var c := ContainStep(x, rs, i, a);
    var b := Row(x, rs, i, i + 1, c);
    assert Rows(x, rs, i, a) == Rows(x, rs, i + 1, b);
    ContainStepProj(x, rs, off, i, a, k);
    RowProj(x, rs, off, i, i + 1, c, k);
    if i == k {
      RowsProjPast(x, rs, off, i + 1, b, k);
    } else {
      RowsProj(x, rs, off, i + 1, b, k);
    }
  }

  /**
   * The gradient `calcfg` computes, coordinate by coordinate: circle `k`'s
   * x (and y) component is its containment term `P1 * c_k` when active, minus
   * `P1 * (c_k - c_j)` for every later overlapping `j`, plus `P1 * (c_i - c_k)`
   * for every earlier overlapping `i`.
   */
  lemma GradientClosedForm(x: seq<real>, rs: seq<real>, k: nat)
    requires WellFormed(x, rs) && k < |rs|
    ensures Gradient(x, rs)[k] == GradientComponent(x, rs, 0, k)
    ensures Gradient(x, rs)[|rs| + k] == GradientComponent(x, rs, |rs|, k)
  {
    RowsProj(x, rs, 0, 0, Init(x, rs), k);
    RowsProj(x, rs, |rs|, 0, Init(x, rs), k);
  }

  lemma PairStepSum(x: seq<real>, rs: seq<real>, off: nat, i: nat, j: nat, a: Acc)
    requires WellFormed(x, rs) && Coordinate(rs, off) && i < j < |rs| && Shaped(a, |rs|)
    ensures Sum(Proj(PairStep(x, rs, i, j, a), off)) == Sum(Proj(a, off))
  {
    if PairTemp(x, rs, i, j) > 0.0 {
      var s := Proj(a, off);
      var d := PairG(x, rs, off, i, j);
      SumUpdate(s, i, s[i] - d);
      SumUpdate(s[i := s[i] - d], j, s[j] + d);
    }
  }

  lemma {:induction false} RowSum(x: seq<real>, rs: seq<real>, off: nat, i: nat, j: nat, a: Acc)
    requires WellFormed(x, rs) && Coordinate(rs, off) && i < |rs| && i < j <= |rs| && Shaped(a, |rs|)
    ensures Sum(Proj(Row(x, rs, i, j, a), off)) == Sum(Proj(a, off))
    decreases |rs| - j
  {
    if j < |rs| {
      PairStepSum(x, rs, off, i, j, a);
      RowSum(x, rs, off, i, j + 1, PairStep(x, rs, i, j, a));
    }
  }

  lemma {:induction false} RowsSum(x: seq<real>, rs: seq<real>, off: nat, i: nat, a: Acc)
    requires WellFormed(x, rs) && Coordinate(rs, off) && i <= |rs| && Shaped(a, |rs|)
    ensures Sum(Proj(Rows(x, rs, i, a), off)) == Sum(Proj(a, off)) + ContainGSum(x, rs, off, i)
    decreases |rs| - i
  {
    if i < |rs| {
      var c := ContainStep(x, rs, i, a);
      if ContainTemp(x, rs, i) > 0.0 {
        SumUpdate(Proj(a, off), i, Proj(a, off)[i] + ContainG(x, rs, off, i));
      }
      assert Sum(Proj(c, off)) == Sum(Proj(a, off)) + ContainG(x, rs, off, i);
      RowSum(x, rs, off, i, i + 1, c);
      RowsSum(x, rs, off, i + 1, Row(x, rs, i, i + 1, c));
    }
  }

  lemma {:induction false} SumZeros(n: nat)
    ensures Sum(Zeros(n)) == 0.0
  {
    if n > 0 {
      assert Zeros(n)[1..] == Zeros(n - 1);
      SumZeros(n - 1);
    }
  }

  /**
   * Pair terms cancel: summed over all circles, the x (and y) gradient is the
   * sum of `P1 * c_i` over the circles that violate containment.
   */
  lemma PairTermsCancel(x: seq<real>, rs: seq<real>)
    requires WellFormed(x, rs)
    ensures Sum(Gradient(x, rs)[..|rs|]) == ContainGSum(x, rs, 0, 0)
    ensures Sum(Gradient(x, rs)[|rs|..2 * |rs|]) == ContainGSum(x, rs, |rs|, 0)
  {
    var a := Accumulated(x, rs);
    var g := Gradient(x, rs);
    assert g[..|rs|] == a.gx;
    assert g[|rs|..2 * |rs|] == a.gy;
    SumZeros(|rs|);
    RowsSum(x, rs, 0, 0, Init(x, rs));
    RowsSum(x, rs, |rs|, 0, Init(x, rs));
  }

  // ------------------------------------------------ properties of the penalty

  /** The cost is never below the main radius. */
  lemma CostAtLeastMainRadius(x: seq<real>, rs: seq<real>)
    requires WellFormed(x, rs)
    ensures Cost(x, rs) >= MainRadius(x)
  {
    CostIsPenalty(x, rs);
  }

  lemma {:induction false} RowCostZero(x: seq<real>, rs: seq<real>, i: nat, j: nat)
    requires WellFormed(x, rs) && i < |rs| && j <= |rs|
    ensures RowCost(x, rs, i, j) == 0.0 <==> forall j' :: j <= j' < |rs| ==> PairTemp(x, rs, i, j') <= 0.0
    decreases |rs| - j
  {
    if j < |rs| {
      RowCostZero(x, rs, i, j + 1);
    }
  }

  lemma {:induction false} CostFromZero(x: seq<real>, rs: seq<real>, i: nat)
    requires WellFormed(x, rs) && i <= |rs|
    ensures CostFrom(x, rs, i) == 0.0 <==>
      && (forall i' :: i <= i' < |rs| ==> ContainTemp(x, rs, i') <= 0.0)
      && (forall i', j :: i <= i' < j < |rs| ==> PairTemp(x, rs, i', j) <= 0.0)
    decreases |rs| - i
  {
    if i < |rs| {
      RowCostZero(x, rs, i, i + 1);
      CostFromZero(x, rs, i + 1);
      if CostFrom(x, rs, i) == 0.0 {
        forall i', j | i <= i' < j < |rs|
          ensures PairTemp(x, rs, i', j) <= 0.0
        {
          if i' == i {
            assert i + 1 <= j < |rs|;
          }
        }
      }
    }
  }

  /** The cost equals the main radius exactly when no term is active. */
  lemma CostIsMainRadiusIffInactive(x: seq<real>, rs: seq<real>)
    requires WellFormed(x, rs)
    ensures Cost(x, rs) == MainRadius(x) <==> NoActiveTerm(x, rs)
  {
    CostIsPenalty(x, rs);
    CostFromZero(x, rs, 0);
  }

  lemma {:induction false} RowInactive(x: seq<real>, rs: seq<real>, i: nat, j: nat, a: Acc)
    requires WellFormed(x, rs) && i < |rs| && i < j <= |rs| && Shaped(a, |rs|)
    requires forall j' :: j <= j' < |rs| ==> PairTemp(x, rs, i, j') <= 0.0
    ensures Row(x, rs, i, j, a) == a
    decreases |rs| - j
  {
    if j < |rs| {
      RowInactive(x, rs, i, j + 1, a);
    }
  }

  lemma {:induction false} RowsInactive(x: seq<real>, rs: seq<real>, i: nat, a: Acc)
    requires WellFormed(x, rs) && i <= |rs| && Shaped(a, |rs|)
    requires forall i' :: i <= i' < |rs| ==> ContainTemp(x, rs, i') <= 0.0
    requires forall i', j :: i <= i' < j < |rs| ==> PairTemp(x, rs, i', j) <= 0.0
    ensures Rows(x, rs, i, a) == a
    decreases |rs| - i
  {
    if i < |rs| {
      RowInactive(x, rs, i, i + 1, a);
      RowsInactive(x, rs, i + 1, a);
    }
  }

  /** With no active term the gradient is zero except its last component, which is 1. */
  lemma InactiveGradient(x: seq<real>, rs: seq<real>)
    requires WellFormed(x, rs)
    requires NoActiveTerm(x, rs)
    ensures Cost(x, rs) == MainRadius(x)
    ensures Gradient(x, rs) == Zeros(2 * |rs|) + [1.0]
  {
    RowsInactive(x, rs, 0, Init(x, rs));
    assert Gradient(x, rs) == Zeros(|rs|) + Zeros(|rs|) + [1.0];
    assert Zeros(|rs|) + Zeros(|rs|) == Zeros(2 * |rs|);
  }
}
