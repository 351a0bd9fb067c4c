/** The explicit Euler scheme: each pseudo-time level is computed node by
    node from the previous one, and the two edge nodes are pinned to the
    closed-form price. */
module Explicit {
  import opened Mesh
  import opened Operator

  /** The interior update at rate node i of the next level, as the
      difference quotients compute it from the previous level. */
  function Node(p: Params, prev: Row, i: nat): real
    requires Valid(p) && |prev| == p.intervals + 1 && 1 <= i < p.intervals
  {
    prev[i] + Dtau(p) * Quotients(p, Rate(p, i), prev[i - 1], prev[i], prev[i + 1])
  }

  /** The forward-Euler update of node i: the previous value plus dtau
      times the operator's stencil. */
  function Euler(p: Params, i: nat, qm: real, q: real, qp: real): real
    requires Valid(p)
  {
    q + Dtau(p) * Apply(p, Rate(p, i), qm, q, qp)
  }

  /** The difference-quotient update and the forward-Euler step agree at
      every node. */
  lemma NodeIsEuler(p: Params, prev: Row, i: nat)
    requires Valid(p) && |prev| == p.intervals + 1 && 1 <= i < p.intervals
    ensures Node(p, prev, i) == Euler(p, i, prev[i - 1], prev[i], prev[i + 1])
  {
    QuotientsAreStencil(p, Rate(p, i), prev[i - 1], prev[i], prev[i + 1]);
  }

  /** Node i of next is the forward-Euler update of prev. */
  predicate EulerAt(p: Params, prev: Row, next: Row, i: nat)
    requires Valid(p) && |prev| == p.intervals + 1 && |next| == p.intervals + 1
    requires 1 <= i < p.intervals
  {
    next[i] == Euler(p, i, prev[i - 1], prev[i], prev[i + 1])
  }

  /** Node i of next is the difference-quotient update of prev. */
  predicate NodeAt(p: Params, prev: Row, next: Row, i: nat)
    requires Valid(p) && |prev| == p.intervals + 1 && |next| == p.intervals + 1
    requires 1 <= i < p.intervals
  {
    next[i] == Node(p, prev, i)
  }

  /** One explicit step from level n to level n + 1: the interior nodes
      are updated, then both edges are overwritten with the closed form. */
  function Step(p: Params, bc: Price, prev: Row, n: nat): (next: Row)
    requires Valid(p) && |prev| == p.intervals + 1
    ensures |next| == p.intervals + 1
    ensures OnBoundary(p, bc, next, n + 1)
    ensures forall i :: 1 <= i < p.intervals ==> NodeAt(p, prev, next, i)
  {
    var m := p.intervals;
    var interior := seq(m - 1, k requires 0 <= k < m - 1 => Node(p, prev, k + 1));
    Embed(LeftValue(p, bc, n + 1), interior, RightValue(p, bc, n + 1))
  }

  /** Every interior node of a step is the forward-Euler update of the
      previous level. */
  lemma StepIsEuler(p: Params, bc: Price, prev: Row, n: nat, i: nat)
    requires Valid(p) && |prev| == p.intervals + 1 && 1 <= i < p.intervals
    ensures EulerAt(p, prev, Step(p, bc, prev, n), i)
  {
    assert NodeAt(p, prev, Step(p, bc, prev, n), i);
    NodeIsEuler(p, prev, i);
  }

  /** The levels 0 .. n of the explicit scheme in pseudo-time order: level
      0 is the terminal payoff 1 and each later level is one step from the
      one before. */
  function History(p: Params, bc: Price, n: nat): (h: Field)
    requires Valid(p)
    ensures |h| == n + 1
    ensures forall k :: 0 <= k <= n ==> |h[k]| == p.intervals + 1
    ensures h[0] == Ones(p.intervals + 1)
    ensures forall k :: 0 <= k < n ==> h[k + 1] == Step(p, bc, h[k], k)
  {
    if n == 0 then [Ones(p.intervals + 1)]
    else
      var h := History(p, bc, n - 1);
      h + [Step(p, bc, h[n - 1], n - 1)]
  }

  /** The explicit price field indexed by calendar time: row k belongs to
      t = T - tau_(N-k), so the last row is the payoff at maturity. */
  function Scheme(p: Params, bc: Price): (v: Field)
    requires Valid(p)
    ensures |v| == p.steps + 1
    ensures forall k :: 0 <= k <= p.steps ==> |v[k]| == p.intervals + 1
    ensures v[p.steps] == Ones(p.intervals + 1)
    ensures forall k :: 0 <= k < p.steps ==> v[k] == Step(p, bc, v[k + 1], p.steps - 1 - k)
  {
    Reverse(History(p, bc, p.steps))
  }

  /** Every row of the explicit field before maturity carries the
      closed-form price at its own calendar time on both edges. */
  lemma SchemeBoundary(p: Params, bc: Price, k: nat)
    requires Valid(p) && k < p.steps
    ensures var v := Scheme(p, bc);
      v[k][0] == bc(CalendarGrid(p)[k], p.rMin) && v[k][p.intervals] == bc(CalendarGrid(p)[k], p.rMax)
  {
    var v := Scheme(p, bc);
    assert v[k] == Step(p, bc, v[k + 1], p.steps - 1 - k);
    assert OnBoundary(p, bc, v[k], p.steps - k);
    CalendarOfLevel(p, p.steps - k);
  }

  /** A step reads only the stencil: two previous levels that agree on
      nodes i-1, i and i+1 give the same value at node i. */
  lemma StepIsLocal(p: Params, bc: Price, prev: Row, other: Row, n: nat, i: nat)
    requires Valid(p) && |prev| == p.intervals + 1 && |other| == p.intervals + 1
    requires 1 <= i < p.intervals
    requires prev[i - 1] == other[i - 1] && prev[i] == other[i] && prev[i + 1] == other[i + 1]
    ensures Step(p, bc, prev, n)[i] == Step(p, bc, other, n)[i]
  {
    StepIsEuler(p, bc, prev, n, i);
    StepIsEuler(p, bc, other, n, i);
  }

  /** The first step from the payoff discounts each interior node by
      exactly one step: Q(tau_1, r_i) = 1 - dtau r_i. */
  lemma FirstStepDiscounts(p: Params, bc: Price, i: nat)
    requires Valid(p) && 1 <= i < p.intervals
    ensures Step(p, bc, Ones(p.intervals + 1), 0)[i] == 1.0 - Dtau(p) * Rate(p, i)
  {
    var ones := Ones(p.intervals + 1);
    var next := Step(p, bc, ones, 0);
    StepIsEuler(p, bc, ones, 0, i);
    ConstantDiscounts(p, ones, next, i, 1.0);
    Unscaled(Dtau(p) * Rate(p, i));
  }

  /** Discounting one unit by x leaves 1 - x. */
  lemma Unscaled(x: real)
    ensures 1.0 - x * 1.0 == 1.0 - x
  {
  }

  /** Where the previous level is constant around node i, an Euler update
      only discounts that constant. */
  lemma ConstantDiscounts(p: Params, prev: Row, next: Row, i: nat, v: real)
    requires Valid(p) && |prev| == p.intervals + 1 && |next| == p.intervals + 1
    requires 1 <= i < p.intervals && EulerAt(p, prev, next, i)
    requires prev[i - 1] == v && prev[i] == v && prev[i + 1] == v
    ensures next[i] == v - Dtau(p) * Rate(p, i) * v
  {
    EulerOnConstant(p, i, v);
  }

  /** On a constant row the Euler update only discounts. */
  lemma EulerOnConstant(p: Params, i: nat, v: real)
    requires Valid(p)
    ensures Euler(p, i, v, v, v) == v - Dtau(p) * Rate(p, i) * v
  {
    ApplyConstant(p, Rate(p, i), v);
  }
}
