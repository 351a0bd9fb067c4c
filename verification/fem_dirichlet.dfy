/** The finite-element time loop: each level multiplies the previous row by
    the old-level matrix, imposes the closed-form edge values by moving the
    edge columns to the right-hand side and replacing the two edge rows by
    unit rows, and solves the resulting dense system. The dense solver is a
    parameter. */
module FemDirichlet {
  import opened Mesh
  import opened LinAlg
  import opened FemAssembly

  /** A dense linear system A y = b. */
  datatype Linear = Linear(matrix: Matrix, rhs: Vector)

  /** The system of one level with Dirichlet values left and right: every
      interior row keeps lhs's row with its edge columns cleared and their
      known contributions subtracted from rhs q; the two edge rows become
      unit rows carrying the edge values. */
  function Eliminate(lhs: Matrix, rhs: Matrix, q: Vector, left: real, right: real): (s: Linear)
    requires |q| >= 2 && IsMatrix(lhs, |q|, |q|) && IsMatrix(rhs, |q|, |q|)
    ensures IsMatrix(s.matrix, |q|, |q|) && |s.rhs| == |q|
  {
    var n := |q|;
    var a := seq(n, i requires 0 <= i < n =>
      if i == 0 || i == n - 1 then Unit(n, i) else lhs[i][0 := 0.0][n - 1 := 0.0]);
    var b := seq(n, i requires 0 <= i < n =>
      if i == 0 then left
      else if i == n - 1 then right
      else MovedRhs(lhs[i], rhs[i], q, left, right));
    Linear(a, b)
  }

  /** Entry i of rhs q with the edge columns of lhs row i, times the edge
      values, subtracted. */
  function MovedRhs(lhsRow: Vector, rhsRow: Vector, q: Vector, left: real, right: real): real
    requires |lhsRow| == |rhsRow| == |q| >= 2
  {
    Dot(rhsRow, q) - (lhsRow[0] * left + lhsRow[|q| - 1] * right)
  }

  /** The shape of the eliminated system: unit edge rows carrying the
      edge values, interior rows equal to lhs's outside the two cleared
      edge columns, and interior right-hand sides reduced by the moved
      edge terms. */
  lemma EliminatedRows(lhs: Matrix, rhs: Matrix, q: Vector, left: real, right: real)
    requires |q| >= 2 && IsMatrix(lhs, |q|, |q|) && IsMatrix(rhs, |q|, |q|)
    ensures var s := Eliminate(lhs, rhs, q, left, right);
      var n := |q|;
      && s.matrix[0] == Unit(n, 0) && s.rhs[0] == left
      && s.matrix[n - 1] == Unit(n, n - 1) && s.rhs[n - 1] == right
      && (forall i :: 0 < i < n - 1 ==> s.matrix[i][0] == 0.0 && s.matrix[i][n - 1] == 0.0)
      && (forall i, j :: 0 < i < n - 1 && 0 < j < n - 1 ==> s.matrix[i][j] == lhs[i][j])
      && (forall i :: 0 < i < n - 1 ==>
            s.rhs[i] == MatVec(rhs, q)[i] - (lhs[i][0] * left + lhs[i][n - 1] * right))
  {
  }

  /** Interior node i of next satisfies the Galerkin equation from q:
      row i of lhs applied to next equals row i of rhs applied to q. */
  predicate GalerkinAt(lhs: Matrix, rhs: Matrix, q: Vector, next: Vector, i: nat)
    requires IsMatrix(lhs, |q|, |q|) && IsMatrix(rhs, |q|, |q|) && |next| == |q| && i < |q|
  {
    Dot(lhs[i], next) == Dot(rhs[i], q)
  }

  /** next carries the edge values and satisfies the Galerkin equation at
      every interior node. */
  predicate Constrained(lhs: Matrix, rhs: Matrix, q: Vector, left: real, right: real, next: Vector)
    requires |q| >= 2 && IsMatrix(lhs, |q|, |q|) && IsMatrix(rhs, |q|, |q|)
  {
    && |next| == |q|
    && next[0] == left && next[|q| - 1] == right
    && forall i :: 0 < i < |q| - 1 ==> GalerkinAt(lhs, rhs, q, next, i)
  }

  /** A vector solves the eliminated system exactly when it carries the
      edge values and satisfies the Galerkin equations at the interior
      nodes: elimination neither loses nor adds a solution. */
  lemma EliminationMeaning(lhs: Matrix, rhs: Matrix, q: Vector, left: real, right: real, y: Vector)
    requires |q| >= 2 && IsMatrix(lhs, |q|, |q|) && IsMatrix(rhs, |q|, |q|) && |y| == |q|
    ensures Solves(Eliminate(lhs, rhs, q, left, right).matrix, y, Eliminate(lhs, rhs, q, left, right).rhs)
        <==> Constrained(lhs, rhs, q, left, right, y)
  {
    var s := Eliminate(lhs, rhs, q, left, right);
    var n := |q|;
    DotUnit(y, 0);
    DotUnit(y, n - 1);
    forall i | 0 < i < n - 1
      ensures y[0] == left && y[n - 1] == right ==>
        (Dot(s.matrix[i], y) == s.rhs[i] <==> GalerkinAt(lhs, rhs, q, y, i))
    {
      InteriorRow(lhs, rhs, q, left, right, y, i);
    }
    if Solves(s.matrix, y, s.rhs) {
      assert Dot(s.matrix[0], y) == s.rhs[0];
      assert Dot(s.matrix[n - 1], y) == s.rhs[n - 1];
    }
  }

  /** An interior row of the eliminated system, once the edge entries of
      y equal the edge values, has the Galerkin residual of node i. */
  lemma InteriorRow(lhs: Matrix, rhs: Matrix, q: Vector, left: real, right: real, y: Vector, i: nat)
    requires |q| >= 2 && IsMatrix(lhs, |q|, |q|) && IsMatrix(rhs, |q|, |q|) && |y| == |q|
    requires 0 < i < |q| - 1
    ensures var s := Eliminate(lhs, rhs, q, left, right);
      y[0] == left && y[|q| - 1] == right ==>
        Dot(s.matrix[i], y) - s.rhs[i] == Dot(lhs[i], y) - Dot(rhs[i], q)
  {
    var s := Eliminate(lhs, rhs, q, left, right);
    assert s.matrix[i] == lhs[i][0 := 0.0][|q| - 1 := 0.0];
    assert s.rhs[i] == MovedRhs(lhs[i], rhs[i], q, left, right);
    if y[0] == left && y[|q| - 1] == right {
      MovedRow(lhs[i], rhs[i], q, left, right, y);
    }
  }

  /** A row with cleared edge columns against the moved right-hand side
      leaves the full row's residual when y carries the edge values. */
  lemma MovedRow(u: Vector, r: Vector, q: Vector, left: real, right: real, y: Vector)
    requires |u| == |r| == |q| == |y| >= 2
    requires y[0] == left && y[|q| - 1] == right
    ensures Dot(u[0 := 0.0][|u| - 1 := 0.0], y) - MovedRhs(u, r, q, left, right) == Dot(u, y) - Dot(r, q)
  {
    var n := |q|;
    DotClearEdges(u, y);
    Cancel(Dot(u[0 := 0.0][n - 1 := 0.0], y), Dot(u, y), Dot(r, q), MovedRhs(u, r, q, left, right),
      u[0], y[0], left, u[n - 1], y[n - 1], right);
  }

  /** The moved edge terms cancel once the edge entries take the edge
      values. */
  lemma Cancel(cleared: real, full: real, given: real, b: real, a0: real, y0: real, l: real, an: real, yn: real, r: real)
    requires cleared == full - a0 * y0 - an * yn && b == given - (a0 * l + an * r)
    requires y0 == l && yn == r
    ensures cleared - b == full - given
  {
  }

  /** A dense solver for square systems, which the model does not open. */
  type Solver = (Matrix, Vector) -> Vector

  /** The system of the step from level k of the finite-element scheme:
      the closed-form values at level k + 1 on the edges. */
  function StepSystem(p: Params, quad: Quadrature, bc: Price, q: Row, k: nat): (s: Linear)
    requires Valid(p) && |q| == p.intervals + 1
    ensures IsMatrix(s.matrix, |q|, |q|) && |s.rhs| == |q|
  {
    Eliminate(LhsMatrix(p, quad), RhsMatrix(p, quad), q, LeftValue(p, bc, k + 1), RightValue(p, bc, k + 1))
  }

  /** next is a finite-element step from level k: closed-form edge values
      of level k + 1 and the Galerkin equations inside. */
  predicate IsStep(p: Params, quad: Quadrature, bc: Price, q: Row, next: Row, k: nat)
    requires Valid(p)
  {
    && |q| == p.intervals + 1 && |next| == p.intervals + 1
    && OnBoundary(p, bc, next, k + 1)
    && forall i :: 0 < i < p.intervals ==> GalerkinAt(LhsMatrix(p, quad), RhsMatrix(p, quad), q, next, i)
  }

  /** Solving a step's system is the same as taking a finite-element step. */
  lemma StepMeaning(p: Params, quad: Quadrature, bc: Price, q: Row, k: nat, y: Row)
    requires Valid(p) && |q| == p.intervals + 1 && |y| == p.intervals + 1
    ensures Solves(StepSystem(p, quad, bc, q, k).matrix, y, StepSystem(p, quad, bc, q, k).rhs)
        <==> IsStep(p, quad, bc, q, y, k)
  {
    EliminationMeaning(LhsMatrix(p, quad), RhsMatrix(p, quad), q,
      LeftValue(p, bc, k + 1), RightValue(p, bc, k + 1), y);
  }

  /** The solver answers a system of size n with a vector of size n. */
  ghost predicate Sized(solve: Solver) {
    forall A, b :: |solve(A, b)| == |b|
  }

  /** The levels 0 .. n produced by the time loop with the given solver,
      in pseudo-time order. */
  function Levels(p: Params, quad: Quadrature, bc: Price, solve: Solver, n: nat): (h: Field)
    requires Valid(p) && Sized(solve)
    ensures |h| == n + 1 && h[0] == Ones(p.intervals + 1)
    ensures forall k :: 0 <= k <= n ==> |h[k]| == p.intervals + 1
  {
    if n == 0 then [Ones(p.intervals + 1)]
    else
      var h := Levels(p, quad, bc, solve, n - 1);
      var s := StepSystem(p, quad, bc, h[n - 1], n - 1);
      h + [solve(s.matrix, s.rhs)]
  }

  /** Each level is the solver's answer to the system of the step from
      the level before, and extending the loop keeps the earlier levels. */
  lemma LevelsStep(p: Params, quad: Quadrature, bc: Price, solve: Solver, n: nat)
    requires Valid(p) && Sized(solve) && n > 0
    ensures var h := Levels(p, quad, bc, solve, n);
      var s := StepSystem(p, quad, bc, h[n - 1], n - 1);
      && h[..n] == Levels(p, quad, bc, solve, n - 1)
      && h[n] == solve(s.matrix, s.rhs)
  {
  }

  /** The solver returned an exact solution of the system of the step
      from level k of h. */
  predicate ExactAt(p: Params, quad: Quadrature, bc: Price, solve: Solver, h: Field, k: nat)
    requires Valid(p) && k < |h| && |h[k]| == p.intervals + 1
  {
    var s := StepSystem(p, quad, bc, h[k], k);
    Solves(s.matrix, solve(s.matrix, s.rhs), s.rhs)
  }

  /** Row k + 1 of h is a finite-element step from row k. */
  predicate StepAt(p: Params, quad: Quadrature, bc: Price, h: Field, k: nat)
    requires Valid(p) && k + 1 < |h|
  {
    IsStep(p, quad, bc, h[k], h[k + 1], k)
  }

  /** h starts from the payoff and every row is a step from the one
      before. */
  predicate IsHistory(p: Params, quad: Quadrature, bc: Price, h: Field)
    requires Valid(p)
  {
    && |h| >= 1 && h[0] == Ones(p.intervals + 1)
    && forall k :: 0 <= k < |h| - 1 ==> StepAt(p, quad, bc, h, k)
  }

  /** The time loop yields a finite-element history exactly when the
      solver was exact at every level it was called on. */
  lemma {:induction false} LevelsMeaning(p: Params, quad: Quadrature, bc: Price, solve: Solver, n: nat)
    requires Valid(p) && Sized(solve)
    ensures var h := Levels(p, quad, bc, solve, n);
      IsHistory(p, quad, bc, h) <==> forall k :: 0 <= k < n ==> ExactAt(p, quad, bc, solve, h, k)
  {
    if n > 0 {
      var h, g := Levels(p, quad, bc, solve, n), Levels(p, quad, bc, solve, n - 1);
      LevelsMeaning(p, quad, bc, solve, n - 1);
      LevelsAgree(p, quad, bc, solve, n);
      LastLevel(p, quad, bc, solve, n);
      HistoryGrows(p, quad, bc, solve, g, h);
    }
  }

  /** If h agrees with g on its steps and solver calls and adds one more
      level, h is a history exactly when g is one and the new level is
      exact, and likewise for the solver being exact throughout. */
  lemma HistoryGrows(p: Params, quad: Quadrature, bc: Price, solve: Solver, g: Field, h: Field)
    requires Valid(p) && |g| >= 1 && |h| == |g| + 1 && h[0] == g[0]
    requires forall k :: 0 <= k < |h| ==> |h[k]| == p.intervals + 1
    requires forall k :: 0 <= k < |g| ==> |g[k]| == p.intervals + 1
    requires IsHistory(p, quad, bc, g) <==> forall k :: 0 <= k < |g| - 1 ==> ExactAt(p, quad, bc, solve, g, k)
    requires forall j :: 0 <= j < |g| - 1 ==> (StepAt(p, quad, bc, h, j) <==> StepAt(p, quad, bc, g, j))
    requires forall j :: 0 <= j < |g| - 1 ==> (ExactAt(p, quad, bc, solve, h, j) <==> ExactAt(p, quad, bc, solve, g, j))
    requires StepAt(p, quad, bc, h, |g| - 1) <==> ExactAt(p, quad, bc, solve, h, |g| - 1)
    ensures IsHistory(p, quad, bc, h) <==> forall k :: 0 <= k < |h| - 1 ==> ExactAt(p, quad, bc, solve, h, k)
  {
  }

  /** The first n levels of the loop run to n are those of the loop run
      to n - 1, so their steps and solver calls are the same. */
  lemma LevelsAgree(p: Params, quad: Quadrature, bc: Price, solve: Solver, n: nat)
    requires Valid(p) && Sized(solve) && n > 0
    ensures var h, g := Levels(p, quad, bc, solve, n), Levels(p, quad, bc, solve, n - 1);
      && (forall j :: 0 <= j < n - 1 ==> (StepAt(p, quad, bc, h, j) <==> StepAt(p, quad, bc, g, j)))
      && (forall j :: 0 <= j < n - 1 ==> (ExactAt(p, quad, bc, solve, h, j) <==> ExactAt(p, quad, bc, solve, g, j)))
  {
    var h := Levels(p, quad, bc, solve, n);
    var g := Levels(p, quad, bc, solve, n - 1);
    LevelsStep(p, quad, bc, solve, n);
    forall j | 0 <= j < n - 1
      ensures StepAt(p, quad, bc, h, j) <==> StepAt(p, quad, bc, g, j)
      ensures ExactAt(p, quad, bc, solve, h, j) <==> ExactAt(p, quad, bc, solve, g, j)
    {
      assert h[j] == g[j] && h[j + 1] == g[j + 1];
    }
  }

  /** The newest level is a step exactly when the solver was exact on
      its system. */
  lemma LastLevel(p: Params, quad: Quadrature, bc: Price, solve: Solver, n: nat)
    requires Valid(p) && Sized(solve) && n > 0
    ensures var h := Levels(p, quad, bc, solve, n);
      StepAt(p, quad, bc, h, n - 1) <==> ExactAt(p, quad, bc, solve, h, n - 1)
  {
    var h := Levels(p, quad, bc, solve, n);
    LevelsStep(p, quad, bc, solve, n);
    StepMeaning(p, quad, bc, h[n - 1], n - 1, h[n]);
  }

  /** The finite-element price field: the levels in calendar order. */
  function Field(p: Params, quad: Quadrature, bc: Price, solve: Solver): (v: Field)
    requires Valid(p) && Sized(solve)
    ensures |v| == p.steps + 1
    ensures v[p.steps] == Ones(p.intervals + 1)
    ensures Reverse(v) == Levels(p, quad, bc, solve, p.steps)
  {
    var h := Levels(p, quad, bc, solve, p.steps);
    ReverseReverse(h);
    Reverse(h)
  }
}
