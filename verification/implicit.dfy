/** The implicit Euler scheme: each level solves a tridiagonal system over
    the interior nodes 1 .. M-1, with the closed-form edge values of the
    new level moved to the right-hand side. */
module Implicit {
  import opened Mesh
  import opened Operator
  import opened Tridiagonal
  import opened Reduction

  /** Weight of the left neighbour in one implicit row, as the scheme
      writes it. */
  function Alpha(p: Params, r: real): real
    requires Valid(p)
  {
    Dtau(p) * (0.5 * Sq(p.sigma) / Sq(Dr(p)) - p.kappa * (p.gamma - r) / (2.0 * Dr(p)))
  }

  /** Diagonal weight of one implicit row. */
  function Beta(p: Params, r: real): real
    requires Valid(p)
  {
    1.0 + Dtau(p) * (r + Sq(p.sigma) / Sq(Dr(p)))
  }

  /** Weight of the right neighbour in one implicit row. */
  function GammaCoef(p: Params, r: real): real
    requires Valid(p)
  {
    Dtau(p) * (0.5 * Sq(p.sigma) / Sq(Dr(p)) + p.kappa * (p.gamma - r) / (2.0 * Dr(p)))
  }

  /** The diffusion part of the scheme's weights is the operator's. */
  lemma DiffusionTerms(p: Params)
    requires Valid(p)
    ensures 0.5 * Sq(p.sigma) / Sq(Dr(p)) == Diffusion(p)
    ensures Sq(p.sigma) / Sq(Dr(p)) == 2.0 * Diffusion(p)
  {
    Halving(Sq(p.sigma), Sq(Dr(p)));
  }

  /** Half of x over y, written two ways. */
  lemma Halving(x: real, y: real)
    requires y != 0.0
    ensures 0.5 * x / y == x / (2.0 * y)
    ensures x / y == 2.0 * (x / (2.0 * y))
  {
  }

  /** The three weights are dtau times the operator's stencil, with the
      identity added on the diagonal. */
  lemma WeightsFromOperator(p: Params, r: real)
    requires Valid(p)
    ensures Alpha(p, r) == Dtau(p) * Lower(p, r)
    ensures Beta(p, r) == 1.0 - Dtau(p) * Centre(p, r)
    ensures GammaCoef(p, r) == Dtau(p) * Upper(p, r)
  {
    DiffusionTerms(p);
  }

  /** Backward Euler at node i: the new value minus dtau times the
      operator applied to the new level. */
  function BackwardEuler(p: Params, i: nat, qm: real, q: real, qp: real): real
    requires Valid(p)
  {
    q - Dtau(p) * Apply(p, Rate(p, i), qm, q, qp)
  }

  /** Backward Euler in the scheme's own weights. */
  lemma BackwardEulerWeights(p: Params, i: nat, qm: real, q: real, qp: real)
    requires Valid(p)
    ensures BackwardEuler(p, i, qm, q, qp)
         == -(Alpha(p, Rate(p, i)) * qm) + Beta(p, Rate(p, i)) * q - GammaCoef(p, Rate(p, i)) * qp
  {
    var r := Rate(p, i);
    WeightsFromOperator(p, r);
    var t, l, c, u := Dtau(p), Lower(p, r), Centre(p, r), Upper(p, r);
    calc {
      q - t * (l * qm + c * q + u * qp);
      -(t * l) * qm + (1.0 - t * c) * q - (t * u) * qp;
    }
  }

  /** Node i of next satisfies the backward Euler equation from prev. */
  predicate NodeEquation(p: Params, prev: Row, next: Row, i: nat)
    requires Valid(p) && |prev| == p.intervals + 1 && |next| == p.intervals + 1
    requires 1 <= i < p.intervals
  {
    BackwardEuler(p, i, next[i - 1], next[i], next[i + 1]) == prev[i]
  }

  /** next is one implicit step from prev: every interior node satisfies
      the backward Euler equation. */
  predicate Equations(p: Params, prev: Row, next: Row)
    requires Valid(p)
  {
    && |prev| == p.intervals + 1 && |next| == p.intervals + 1
    && forall i :: 1 <= i < p.intervals ==> NodeEquation(p, prev, next, i)
  }

  /** The weights of the implicit equation at rate r: -alpha, beta and
      -gamma_coef (the a_vec, b_vec and c_vec entries). */
  function Weight(p: Params, r: real): Weights
    requires Valid(p)
  {
    Weights(-Alpha(p, r), Beta(p, r), -GammaCoef(p, r))
  }

  /** The implicit equations of the interior nodes 1 .. M-1. */
  function Rows(p: Params): (w: seq<Weights>)
    requires Valid(p)
    ensures |w| == p.intervals - 1
  {
    seq(p.intervals - 1, k requires 0 <= k < p.intervals - 1 => Weight(p, Rate(p, k + 1)))
  }

  /** Each row of the system is the backward Euler equation of its node. */
  lemma RowIsBackwardEuler(p: Params, i: nat, qm: real, q: real, qp: real)
    requires Valid(p)
    ensures Combine(Weight(p, Rate(p, i)), qm, q, qp) == BackwardEuler(p, i, qm, q, qp)
  {
    BackwardEulerWeights(p, i, qm, q, qp);
  }

  /** The rows hold on a full row q exactly when q satisfies the implicit
      equations from prev. */
  lemma RowsMeaning(p: Params, prev: Row, q: Row)
    requires Valid(p) && p.intervals >= 3 && |prev| == p.intervals + 1 && |q| == p.intervals + 1
    ensures Holds(Rows(p), q, Interior(prev)) <==> Equations(p, prev, q)
  {
    var w, d := Rows(p), Interior(prev);
    forall i | 1 <= i < p.intervals
      ensures HoldsAt(w, q, d, i - 1) <==> NodeEquation(p, prev, q, i)
    {
      RowIsBackwardEuler(p, i, q[i - 1], q[i], q[i + 1]);
    }
    forall k | 0 <= k < p.intervals - 1
      ensures HoldsAt(w, q, d, k) <==> NodeEquation(p, prev, q, k + 1)
    {
      RowIsBackwardEuler(p, k + 1, q[k], q[k + 1], q[k + 2]);
    }
  }

  /** The tridiagonal system of one implicit step from level n: row k
      stands for rate node k + 1, and the known edge values of level n + 1
      are moved into the first and last right-hand sides. */
  function StepSystem(p: Params, bc: Price, prev: Row, n: nat): (s: System)
    requires Valid(p) && p.intervals >= 3 && |prev| == p.intervals + 1
    ensures WellFormed(s) && |s.b| == p.intervals - 1
  {
    Reduce(Rows(p), Interior(prev), LeftValue(p, bc, n + 1), RightValue(p, bc, n + 1))
  }

  /** x solves the step's system exactly when the full row made of the
      edge values and x satisfies the implicit equations. */
  lemma SystemMeaning(p: Params, bc: Price, prev: Row, n: nat, x: seq<real>)
    requires Valid(p) && p.intervals >= 3 && |prev| == p.intervals + 1 && |x| == p.intervals - 1
    ensures Solves(StepSystem(p, bc, prev, n), x) <==> Equations(p, prev, Level(p, bc, n + 1, x))
  {
    ReduceMeaning(Rows(p), Interior(prev), LeftValue(p, bc, n + 1), RightValue(p, bc, n + 1), x);
    RowsMeaning(p, prev, Level(p, bc, n + 1, x));
  }

  /** The first row of the step's system as the scheme assembles it: no
      sub-diagonal entry, and alpha times the new left edge value added to
      the previous value. */
  lemma FirstSystemRow(p: Params, bc: Price, prev: Row, n: nat)
    requires Valid(p) && p.intervals >= 3 && |prev| == p.intervals + 1
    ensures var s := StepSystem(p, bc, prev, n);
      && s.a[0] == 0.0
      && s.b[0] == Beta(p, Rate(p, 1))
      && s.c[0] == -GammaCoef(p, Rate(p, 1))
      && s.d[0] == prev[1] + Alpha(p, Rate(p, 1)) * LeftValue(p, bc, n + 1)
  {
  }

  /** The last row: no super-diagonal entry, and gamma_coef times the new
      right edge value added to the previous value. */
  lemma LastSystemRow(p: Params, bc: Price, prev: Row, n: nat)
    requires Valid(p) && p.intervals >= 3 && |prev| == p.intervals + 1
    ensures var s := StepSystem(p, bc, prev, n);
      var k := p.intervals - 2;
      && s.a[k] == -Alpha(p, Rate(p, k + 1))
      && s.b[k] == Beta(p, Rate(p, k + 1))
      && s.c[k] == 0.0
      && s.d[k] == prev[k + 1] + GammaCoef(p, Rate(p, k + 1)) * RightValue(p, bc, n + 1)
  {
  }

  /** An interior row: the three weights and the previous value. */
  lemma MiddleSystemRow(p: Params, bc: Price, prev: Row, n: nat, k: nat)
    requires Valid(p) && p.intervals >= 3 && |prev| == p.intervals + 1 && 0 < k < p.intervals - 2
    ensures var s := StepSystem(p, bc, prev, n);
      && s.a[k] == -Alpha(p, Rate(p, k + 1))
      && s.b[k] == Beta(p, Rate(p, k + 1))
      && s.c[k] == -GammaCoef(p, Rate(p, k + 1))
      && s.d[k] == prev[k + 1]
  {
  }
}
