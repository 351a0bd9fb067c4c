/** The pointwise absolute error of a numerical price field against the
    closed-form field on the same grid, and the fact that every scheme's
    field is exact on both edges before maturity. */
module ErrorField {
  import opened Mesh
  import Explicit
  import Marching
  import FemAssembly
  import FemDirichlet

  function Abs(x: real): real {
    if x < 0.0 then -x else x
  }

  /** Two fields of N + 1 rows of M + 1 entries each. */
  predicate Shaped(p: Params, v: Field) {
    |v| == p.steps + 1 && forall k :: 0 <= k < |v| ==> |v[k]| == p.intervals + 1
  }

  /** The closed-form price at every calendar time and rate node. */
  function ClosedForm(p: Params, bc: Price): (v: Field)
    requires Valid(p)
    ensures Shaped(p, v)
    ensures forall k, i :: 0 <= k <= p.steps && 0 <= i <= p.intervals ==>
      v[k][i] == bc(CalendarGrid(p)[k], RateGrid(p)[i])
  {
    var t, r := CalendarGrid(p), RateGrid(p);
    seq(p.steps + 1, k requires 0 <= k <= p.steps =>
      seq(p.intervals + 1, i requires 0 <= i <= p.intervals => bc(t[k], r[i])))
  }

  /** The entrywise absolute difference of two fields of one shape. */
  function Error(p: Params, numerical: Field, analytical: Field): (e: Field)
    requires Shaped(p, numerical) && Shaped(p, analytical)
    ensures Shaped(p, e)
  {
    seq(p.steps + 1, k requires 0 <= k <= p.steps =>
      seq(p.intervals + 1, i requires 0 <= i <= p.intervals => Abs(numerical[k][i] - analytical[k][i])))
  }

  /** The error is the absolute difference: one of the two differences
      and at least the other, so never negative, and zero exactly where the
      two fields agree. */
  lemma ErrorMeaning(p: Params, u: Field, v: Field, k: nat, i: nat)
    requires Shaped(p, u) && Shaped(p, v) && k <= p.steps && i <= p.intervals
    ensures Error(p, u, v)[k][i] >= 0.0
    ensures Error(p, u, v)[k][i] == 0.0 <==> u[k][i] == v[k][i]
    ensures Error(p, u, v)[k][i] >= u[k][i] - v[k][i] && Error(p, u, v)[k][i] >= v[k][i] - u[k][i]
    ensures Error(p, u, v)[k][i] == u[k][i] - v[k][i] || Error(p, u, v)[k][i] == v[k][i] - u[k][i]
  {
  }

  /** Swapping the two fields leaves the error unchanged. */
  lemma ErrorSymmetric(p: Params, u: Field, v: Field)
    requires Shaped(p, u) && Shaped(p, v)
    ensures Error(p, u, v) == Error(p, v, u)
  {
    var a, b := Error(p, u, v), Error(p, v, u);
    forall k | 0 <= k <= p.steps
      ensures a[k] == b[k]
    {
      assert forall i :: 0 <= i <= p.intervals ==> a[k][i] == b[k][i];
    }
  }

  /** The error against a third field is at most the sum of the errors
      through the second. */
  lemma ErrorTriangle(p: Params, u: Field, v: Field, w: Field, k: nat, i: nat)
    requires Shaped(p, u) && Shaped(p, v) && Shaped(p, w) && k <= p.steps && i <= p.intervals
    ensures Error(p, u, w)[k][i] <= Error(p, u, v)[k][i] + Error(p, v, w)[k][i]
  {
  }

  /** Row k of v carries the closed-form price of calendar time t_k on
      both edges. */
  predicate EdgesAt(p: Params, bc: Price, v: Field, k: nat)
    requires Valid(p) && Shaped(p, v) && k <= p.steps
  {
    var t := CalendarGrid(p)[k];
    v[k][0] == bc(t, p.rMin) && v[k][p.intervals] == bc(t, p.rMax)
  }

  /** Every row of v before maturity is exact on both edges. */
  predicate ExactEdges(p: Params, bc: Price, v: Field)
    requires Valid(p)
  {
    Shaped(p, v) && forall k :: 0 <= k < p.steps ==> EdgesAt(p, bc, v, k)
  }

  /** A field exact on its edges has zero error there at every row before
      maturity. */
  lemma EdgeErrorZero(p: Params, bc: Price, v: Field, k: nat)
    requires Valid(p) && ExactEdges(p, bc, v) && k < p.steps
    ensures Error(p, v, ClosedForm(p, bc))[k][0] == 0.0
    ensures Error(p, v, ClosedForm(p, bc))[k][p.intervals] == 0.0
  {
    assert EdgesAt(p, bc, v, k);
    RateLast(p);
  }

  /** A pseudo-time history whose levels 1 .. N carry the closed-form edge
      values of their own level becomes, once reversed, a field exact on
      its edges. */
  lemma ReversedHistoryEdges(p: Params, bc: Price, h: Field)
    requires Valid(p) && Shaped(p, h)
    requires forall n :: 1 <= n <= p.steps ==> OnBoundary(p, bc, h[n], n)
    ensures ExactEdges(p, bc, Reverse(h))
  {
    var v := Reverse(h);
    forall k | 0 <= k < p.steps
      ensures EdgesAt(p, bc, v, k)
    {
      var n := p.steps - k;
      assert v[k] == h[n];
      assert OnBoundary(p, bc, h[n], n);
      CalendarOfLevel(p, n);
    }
  }

  /** The explicit field is exact on its edges before maturity. */
  lemma ExplicitEdges(p: Params, bc: Price)
    requires Valid(p)
    ensures ExactEdges(p, bc, Explicit.Scheme(p, bc))
  {
    var v := Explicit.Scheme(p, bc);
    forall k | 0 <= k < p.steps
      ensures EdgesAt(p, bc, v, k)
    {
      Explicit.SchemeBoundary(p, bc, k);
    }
  }

  /** A field produced by marching the implicit or Crank-Nicolson scheme
      is exact on its edges before maturity. */
  lemma MarchedEdges(sc: Marching.Scheme, p: Params, bc: Price, v: Field)
    requires Valid(p) && |v| == p.steps + 1 && Marching.IsHistory(sc, p, bc, Reverse(v), p.steps)
    ensures ExactEdges(p, bc, v)
  {
    var h := Reverse(v);
    forall n | 1 <= n <= p.steps
      ensures |h[n]| == p.intervals + 1 && OnBoundary(p, bc, h[n], n)
    {
      assert Marching.StepAt(sc, p, bc, h, n - 1);
    }
    ReversedHistoryEdges(p, bc, h);
    ReverseReverse(v);
  }

  /** The finite-element field is exact on its edges before maturity
      whenever its solver was exact at every level. */
  lemma FemEdges(p: Params, quad: FemAssembly.Quadrature, bc: Price, solve: FemDirichlet.Solver)
    requires Valid(p) && FemDirichlet.Sized(solve)
    requires var h := FemDirichlet.Levels(p, quad, bc, solve, p.steps);
      forall k :: 0 <= k < p.steps ==> FemDirichlet.ExactAt(p, quad, bc, solve, h, k)
    ensures ExactEdges(p, bc, FemDirichlet.Field(p, quad, bc, solve))
  {
    var h := FemDirichlet.Levels(p, quad, bc, solve, p.steps);
    FemDirichlet.LevelsMeaning(p, quad, bc, solve, p.steps);
    forall n | 1 <= n <= p.steps
      ensures OnBoundary(p, bc, h[n], n)
    {
      assert FemDirichlet.StepAt(p, quad, bc, h, n - 1);
    }
    ReversedHistoryEdges(p, bc, h);
  }
}
