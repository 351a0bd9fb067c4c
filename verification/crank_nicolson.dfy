/** The Crank-Nicolson scheme: the operator is averaged between the known
    level and the new one, the implicit half is assembled as a dense
    matrix, its three bands are read back into a tridiagonal system, and
    the closed-form edge values of the new level are moved to the
    right-hand side. */
module CrankNicolson {
  import opened Mesh
  import opened Operator
  import opened LinAlg
  import opened Tridiagonal
  import opened Reduction

  /** The centred drift coefficient kappa (gamma - r) / (2 dr) (coef_a). */
  function CoefA(p: Params, r: real): real
    requires Valid(p)
  {
    p.kappa * (p.gamma - r) / (2.0 * Dr(p))
  }

  /** The diffusion coefficient sigma^2 / (2 dr^2) (coef_d). */
  function CoefD(p: Params): real
    requires Valid(p)
  {
    Sq(p.sigma) / (2.0 * Sq(Dr(p)))
  }

  /** The rate of interior node k + 1 (the scheme's r_interior[k]). */
  function InteriorRate(p: Params, k: nat): real
    requires Valid(p)
  {
    Rate(p, k + 1)
  }

  /** The implicit-side weights at rate r: lower_coeff, diag_coeff and
      upper_coeff. */
  function Lhs(p: Params, r: real): Weights
    requires Valid(p)
  {
    var h := Dtau(p) / 2.0;
    Weights(-h * (-CoefA(p, r) + CoefD(p)), 1.0 - h * (-2.0 * CoefD(p) - r), -h * (CoefA(p, r) + CoefD(p)))
  }

  /** The explicit-side weights at rate r: lower_coeff_rhs, diag_coeff_rhs
      and upper_coeff_rhs. */
  function Rhs(p: Params, r: real): Weights
    requires Valid(p)
  {
    var h := Dtau(p) / 2.0;
    Weights(h * (-CoefA(p, r) + CoefD(p)), 1.0 + h * (-2.0 * CoefD(p) - r), h * (CoefA(p, r) + CoefD(p)))
  }

  /** The two sides mirror each other: opposite off-diagonal weights, and
      diagonal weights that sum to two. */
  lemma Mirror(p: Params, r: real)
    requires Valid(p)
    ensures Lhs(p, r).lower == -Rhs(p, r).lower
    ensures Lhs(p, r).upper == -Rhs(p, r).upper
    ensures Lhs(p, r).diag + Rhs(p, r).diag == 2.0
  {
  }

  /** The weight algebra of one half step: with half step h, drift a and
      diffusion d, the scheme's weights are the identity plus or minus h
      times the stencil (d - a, -(r + 2 d), d + a). */
  lemma HalfStepAlgebra(h: real, a: real, d: real, r: real, qm: real, q: real, qp: real, sign: real)
    requires sign == 1.0 || sign == -1.0
    ensures (sign * h * (-a + d)) * qm + (1.0 + sign * h * (-2.0 * d - r)) * q + (sign * h * (a + d)) * qp
         == q + sign * h * ((d - a) * qm + -(r + 2.0 * d) * q + (d + a) * qp)
  {
  }

  /** The implicit side is the identity minus half a step of the operator
      applied to the new level. */
  lemma LhsIsHalfStep(p: Params, r: real, qm: real, q: real, qp: real)
    requires Valid(p)
    ensures Combine(Lhs(p, r), qm, q, qp) == q - Dtau(p) / 2.0 * Apply(p, r, qm, q, qp)
  {
    var h, a, d := Dtau(p) / 2.0, CoefA(p, r), CoefD(p);
    HalfStepAlgebra(h, a, d, r, qm, q, qp, -1.0);
  }

  /** The explicit side is the identity plus half a step of the operator
      applied to the known level. */
  lemma RhsIsHalfStep(p: Params, r: real, qm: real, q: real, qp: real)
    requires Valid(p)
    ensures Combine(Rhs(p, r), qm, q, qp) == q + Dtau(p) / 2.0 * Apply(p, r, qm, q, qp)
  {
    var h, a, d := Dtau(p) / 2.0, CoefA(p, r), CoefD(p);
    HalfStepAlgebra(h, a, d, r, qm, q, qp, 1.0);
  }

  /** The implicit-side equations of the interior nodes 1 .. M-1. */
  function LhsRows(p: Params): (w: seq<Weights>)
    requires Valid(p)
    ensures |w| == p.intervals - 1
  {
    seq(p.intervals - 1, k requires 0 <= k < p.intervals - 1 => Lhs(p, InteriorRate(p, k)))
  }

  /** One entry of the implicit-side matrix A_matrix: the diagonal, the
      band just below and the band just above carry the row's weights and
      every other entry is zero. */
  function MatrixEntry(p: Params, i: nat, j: nat): real
    requires Valid(p) && i < p.intervals - 1
  {
    var w := Lhs(p, InteriorRate(p, i));
    if j == i then w.diag
    else if j + 1 == i then w.lower
    else if j == i + 1 then w.upper
    else 0.0
  }

  /** The dense implicit-side matrix of size (M-1) x (M-1). */
  function Matrix(p: Params): (A: LinAlg.Matrix)
    requires Valid(p)
    ensures IsMatrix(A, p.intervals - 1, p.intervals - 1)
    ensures Banded(A)
  {
    var m := p.intervals - 1;
    seq(m, i requires 0 <= i < m => seq(m, j requires 0 <= j < m => MatrixEntry(p, i, j)))
  }

  /** Entry k of the explicit side applied to the known level, in the
      scheme's order: diagonal term first, then the two neighbours. */
  function RhsEntry(p: Params, prev: Row, k: nat): real
    requires Valid(p) && |prev| == p.intervals + 1 && k < p.intervals - 1
  {
    var w := Rhs(p, InteriorRate(p, k));
    w.diag * prev[k + 1] + w.lower * prev[k] + w.upper * prev[k + 2]
  }

  /** The explicit side applied to the known level, before the edge terms
      are added. */
  function RhsVector(p: Params, prev: Row): (d: seq<real>)
    requires Valid(p) && |prev| == p.intervals + 1
    ensures |d| == p.intervals - 1
    ensures forall k :: 0 <= k < |d| ==> d[k] == RhsEntry(p, prev, k)
  {
    seq(p.intervals - 1, k requires 0 <= k < p.intervals - 1 => RhsEntry(p, prev, k))
  }

  /** Entry k of the explicit side is the known value at node k + 1 plus
      half a step of the operator applied to the known level there. */
  lemma RhsVectorIsHalfStep(p: Params, prev: Row, k: nat)
    requires Valid(p) && |prev| == p.intervals + 1 && k < p.intervals - 1
    ensures RhsVector(p, prev)[k]
         == prev[k + 1] + Dtau(p) / 2.0 * Apply(p, InteriorRate(p, k), prev[k], prev[k + 1], prev[k + 2])
  {
    var w := Rhs(p, InteriorRate(p, k));
    RhsIsHalfStep(p, InteriorRate(p, k), prev[k], prev[k + 1], prev[k + 2]);
    assert RhsEntry(p, prev, k) == Combine(w, prev[k], prev[k + 1], prev[k + 2]);
  }

  /** The left edge term of the step from level n: the new level's left
      edge value times h (-coef_a + coef_d) at the first interior node. */
  function EdgeLeft(p: Params, bc: Price, n: nat): real
    requires Valid(p) && p.intervals >= 3
  {
    Dtau(p) / 2.0 * (-CoefA(p, InteriorRate(p, 0)) + CoefD(p)) * LeftValue(p, bc, n + 1)
  }

  /** The right edge term: the new level's right edge value times
      h (coef_a + coef_d) at the last interior node. */
  function EdgeRight(p: Params, bc: Price, n: nat): real
    requires Valid(p) && p.intervals >= 3
  {
    Dtau(p) / 2.0 * (CoefA(p, InteriorRate(p, p.intervals - 2)) + CoefD(p)) * RightValue(p, bc, n + 1)
  }

  /** The right-hand side of the step from level n: the explicit side
      with the two edge terms added to its first and last entries. */
  function Corrected(p: Params, bc: Price, prev: Row, n: nat): (d: seq<real>)
    requires Valid(p) && p.intervals >= 3 && |prev| == p.intervals + 1
    ensures |d| == p.intervals - 1
  {
    AddEdges(RhsVector(p, prev), EdgeLeft(p, bc, n), EdgeRight(p, bc, n))
  }

  /** The tridiagonal system read from the three bands of a square matrix:
      a[i] = A[i][i-1] below the first row, b[i] = A[i][i], and
      c[i] = A[i][i+1] above the last row; the two unused slots stay zero. */
  function FromBands(A: LinAlg.Matrix, d: seq<real>): (s: System)
    requires |A| >= 2 && IsMatrix(A, |A|, |A|) && |d| == |A|
    ensures WellFormed(s) && |s.b| == |A| && s.d == d
  {
    var m := |A|;
    var a := seq(m, i requires 0 <= i < m => if i > 0 then A[i][i - 1] else 0.0);
    var b := seq(m, i requires 0 <= i < m => A[i][i]);
    var c := seq(m, i requires 0 <= i < m => if i < m - 1 then A[i][i + 1] else 0.0);
    System(a, b, c, d)
  }

  /** Row i of a banded matrix vanishes off the three central places. */
  lemma BandedRow(A: LinAlg.Matrix, i: nat)
    requires IsMatrix(A, |A|, |A|) && Banded(A) && i < |A|
    ensures BandRow(A[i], i)
  {
    forall j | 0 <= j < |A[i]| && (j + 1 < i || i + 1 < j)
      ensures A[i][j] == 0.0
    {
    }
  }

  /** Equal weights give equal two-term sums. */
  lemma SameTwo(a: real, b: real, a': real, b': real, x: real, y: real)
    requires a == a' && b == b'
    ensures a * x + b * y == a' * x + b' * y
  {
  }

  /** Equal weights give equal three-term sums. */
  lemma SameThree(a: real, b: real, c: real, a': real, b': real, c': real, x: real, y: real, z: real)
    requires a == a' && b == b' && c == c'
    ensures a * x + b * y + c * z == a' * x + b' * y + c' * z
  {
  }

  /** Row i of the band system is row i of the matrix applied to x. */
  lemma BandRowValue(A: LinAlg.Matrix, d: seq<real>, x: seq<real>, i: nat)
    requires |A| >= 2 && IsMatrix(A, |A|, |A|) && |d| == |A| && |x| == |A| && i < |A|
    requires BandRow(A[i], i)
    ensures RowValue(FromBands(A, d), x, i) == Dot(A[i], x)
  {
    var s := FromBands(A, d);
    if i == 0 {
      DotBandFirst(A[0], x);
      SameTwo(s.b[0], s.c[0], A[0][0], A[0][1], x[0], x[1]);
    } else if i == |A| - 1 {
      DotBandLast(A[i], x);
      SameTwo(s.a[i], s.b[i], A[i][i - 1], A[i][i], x[i - 1], x[i]);
    } else {
      MiddleBandRow(A, d, x, i);
    }
  }

  /** An interior row of the band system is the matrix row applied to x. */
  lemma MiddleBandRow(A: LinAlg.Matrix, d: seq<real>, x: seq<real>, i: nat)
    requires |A| >= 2 && IsMatrix(A, |A|, |A|) && |d| == |A| && |x| == |A| && 0 < i < |A| - 1
    requires BandRow(A[i], i)
    ensures RowValue(FromBands(A, d), x, i) == Dot(A[i], x)
  {
    var s := FromBands(A, d);
    BandsAt(A, d, i);
    MiddleRowValue(s, x, i);
    DotBandMiddle(A[i], x, i);
    SameThree(s.a[i], s.b[i], s.c[i], A[i][i - 1], A[i][i], A[i][i + 1], x[i - 1], x[i], x[i + 1]);
  }

  /** The three bands of an interior row are read from the matrix. */
  lemma BandsAt(A: LinAlg.Matrix, d: seq<real>, i: nat)
    requires |A| >= 2 && IsMatrix(A, |A|, |A|) && |d| == |A| && 0 < i < |A| - 1
    ensures var s := FromBands(A, d);
      s.a[i] == A[i][i - 1] && s.b[i] == A[i][i] && s.c[i] == A[i][i + 1]
  {
  }

  /** An interior row of a system meets x in three terms. */
  lemma MiddleRowValue(s: System, x: seq<real>, i: nat)
    requires WellFormed(s) && |x| == |s.b| && 0 < i < |s.b| - 1
    ensures RowValue(s, x, i) == s.a[i] * x[i - 1] + s.b[i] * x[i] + s.c[i] * x[i + 1]
  {
  }

  /** Reading the bands loses nothing: for a banded matrix, x solves the
      dense system exactly when it solves the band system. */
  lemma BandsKeepSolutions(A: LinAlg.Matrix, d: seq<real>, x: seq<real>)
    requires |A| >= 2 && IsMatrix(A, |A|, |A|) && Banded(A) && |d| == |A| && |x| == |A|
    ensures LinAlg.Solves(A, x, d) <==> Tridiagonal.Solves(FromBands(A, d), x)
  {
    var s := FromBands(A, d);
    forall i | 0 <= i < |A|
      ensures RowValue(s, x, i) == Dot(A[i], x)
    {
      BandedRow(A, i);
      BandRowValue(A, d, x, i);
    }
  }

  /** The tridiagonal system of one step from level n, as the scheme
      builds it: bands of the dense matrix, corrected right-hand side. */
  function StepSystem(p: Params, bc: Price, prev: Row, n: nat): (s: System)
    requires Valid(p) && p.intervals >= 3 && |prev| == p.intervals + 1
    ensures WellFormed(s) && |s.b| == p.intervals - 1
  {
    FromBands(Matrix(p), Corrected(p, bc, prev, n))
  }

  /** h x times v is minus (-h x) times v. */
  lemma NegatedScale(h: real, x: real, v: real)
    ensures h * x * v == -(-h * x * v)
  {
  }

  /** Each edge term is the implicit-side edge weight times the edge
      value, moved to the right-hand side. */
  lemma EdgesMoved(p: Params, bc: Price, n: nat)
    requires Valid(p) && p.intervals >= 3
    ensures EdgeLeft(p, bc, n) == -(Lhs(p, InteriorRate(p, 0)).lower * LeftValue(p, bc, n + 1))
    ensures EdgeRight(p, bc, n) == -(Lhs(p, InteriorRate(p, p.intervals - 2)).upper * RightValue(p, bc, n + 1))
  {
    var h := Dtau(p) / 2.0;
    NegatedScale(h, -CoefA(p, InteriorRate(p, 0)) + CoefD(p), LeftValue(p, bc, n + 1));
    NegatedScale(h, CoefA(p, InteriorRate(p, p.intervals - 2)) + CoefD(p), RightValue(p, bc, n + 1));
  }

  /** The bands of the dense matrix are the implicit-side weights, with
      the two unused slots zero. */
  lemma MatrixBands(p: Params, d: seq<real>, e: seq<real>, left: real, right: real)
    requires Valid(p) && p.intervals >= 3 && |d| == p.intervals - 1 && |e| == p.intervals - 1
    ensures var s := FromBands(Matrix(p), d);
      var t := Reduce(LhsRows(p), e, left, right);
      s.a == t.a && s.b == t.b && s.c == t.c
  {
    var s := FromBands(Matrix(p), d);
    var t := Reduce(LhsRows(p), e, left, right);
    var m := p.intervals - 1;
    forall i | 0 <= i < m
      ensures s.a[i] == t.a[i] && s.b[i] == t.b[i] && s.c[i] == t.c[i]
    {
      assert Matrix(p)[i][i] == MatrixEntry(p, i, i);
      if i > 0 {
        assert Matrix(p)[i][i - 1] == MatrixEntry(p, i, i - 1);
      }
      if i < m - 1 {
        assert Matrix(p)[i][i + 1] == MatrixEntry(p, i, i + 1);
      }
    }
  }

  /** The corrected right-hand side is the reduced one: the edge terms the
      scheme adds are the implicit-side edge weights moved across. */
  lemma CorrectedIsReduced(p: Params, bc: Price, prev: Row, n: nat)
    requires Valid(p) && p.intervals >= 3 && |prev| == p.intervals + 1
    ensures Corrected(p, bc, prev, n)
         == Reduce(LhsRows(p), RhsVector(p, prev), LeftValue(p, bc, n + 1), RightValue(p, bc, n + 1)).d
  {
    var w := LhsRows(p);
    var left, right := LeftValue(p, bc, n + 1), RightValue(p, bc, n + 1);
    EdgeRows(p);
    EdgesMoved(p, bc, n);
    ReducedRhs(w, RhsVector(p, prev), left, right, EdgeLeft(p, bc, n), EdgeRight(p, bc, n));
  }

  /** The first and last implicit-side rows. */
  lemma EdgeRows(p: Params)
    requires Valid(p) && p.intervals >= 3
    ensures LhsRows(p)[0] == Lhs(p, InteriorRate(p, 0))
    ensures LhsRows(p)[|LhsRows(p)| - 1] == Lhs(p, InteriorRate(p, p.intervals - 2))
  {
  }

  /** The assembled system is the reduction of the implicit-side equations
      with the explicit side as right-hand side. */
  lemma AssemblyIsReduction(p: Params, bc: Price, prev: Row, n: nat)
    requires Valid(p) && p.intervals >= 3 && |prev| == p.intervals + 1
    ensures StepSystem(p, bc, prev, n)
         == Reduce(LhsRows(p), RhsVector(p, prev), LeftValue(p, bc, n + 1), RightValue(p, bc, n + 1))
  {
    MatrixBands(p, Corrected(p, bc, prev, n), RhsVector(p, prev), LeftValue(p, bc, n + 1), RightValue(p, bc, n + 1));
    CorrectedIsReduced(p, bc, prev, n);
  }

  /** Node i of next satisfies the Crank-Nicolson equation from prev: the
      new value minus half a step of the operator on the new level equals
      the old value plus half a step on the old level. */
  predicate NodeEquation(p: Params, prev: Row, next: Row, i: nat)
    requires Valid(p) && |prev| == p.intervals + 1 && |next| == p.intervals + 1
    requires 1 <= i < p.intervals
  {
    Trapezoid(p, Rate(p, i), next[i - 1], next[i], next[i + 1], prev[i - 1], prev[i], prev[i + 1])
  }

  /** The trapezoidal rule at rate r for new values (qm, q, qp) and old
      values (um, u, up): the new value minus half a step of the operator
      equals the old value plus half a step. */
  predicate Trapezoid(p: Params, r: real, qm: real, q: real, qp: real, um: real, u: real, up: real)
    requires Valid(p)
  {
    q - Dtau(p) / 2.0 * Apply(p, r, qm, q, qp) == u + Dtau(p) / 2.0 * Apply(p, r, um, u, up)
  }

  /** next is one Crank-Nicolson step from prev at every interior node. */
  predicate Equations(p: Params, prev: Row, next: Row)
    requires Valid(p)
  {
    && |prev| == p.intervals + 1 && |next| == p.intervals + 1
    && forall i :: 1 <= i < p.intervals ==> NodeEquation(p, prev, next, i)
  }

  /** Equation k of the implicit side, with the explicit side as its
      right-hand side, is the Crank-Nicolson equation of node k + 1. */
  lemma RowIsTrapezoid(p: Params, prev: Row, q: Row, k: nat)
    requires Valid(p) && p.intervals >= 3 && |prev| == p.intervals + 1 && |q| == p.intervals + 1
    requires k < p.intervals - 1
    ensures HoldsAt(LhsRows(p), q, RhsVector(p, prev), k) <==> NodeEquation(p, prev, q, k + 1)
  {
    HoldsAtIsTrapezoid(p, prev, q, k);
    var i := k + 1;
    assert NodeEquation(p, prev, q, i)
      <==> Trapezoid(p, InteriorRate(p, k), q[k], q[i], q[k + 2], prev[k], prev[i], prev[k + 2]);
  }

  /** Equation k of the implicit side is the trapezoidal rule at the
      interior rate of row k. */
  lemma HoldsAtIsTrapezoid(p: Params, prev: Row, q: Row, k: nat)
    requires Valid(p) && p.intervals >= 3 && |prev| == p.intervals + 1 && |q| == p.intervals + 1
    requires k < p.intervals - 1
    ensures HoldsAt(LhsRows(p), q, RhsVector(p, prev), k)
        <==> Trapezoid(p, InteriorRate(p, k), q[k], q[k + 1], q[k + 2], prev[k], prev[k + 1], prev[k + 2])
  {
    var r := InteriorRate(p, k);
    var lhs := Combine(Lhs(p, r), q[k], q[k + 1], q[k + 2]);
    var rhs := Combine(Rhs(p, r), prev[k], prev[k + 1], prev[k + 2]);
    assert HoldsAt(LhsRows(p), q, RhsVector(p, prev), k) <==> lhs == RhsEntry(p, prev, k);
    assert RhsEntry(p, prev, k) == rhs;
    TrapezoidIsCombine(p, r, q[k], q[k + 1], q[k + 2], prev[k], prev[k + 1], prev[k + 2]);
  }

  /** The trapezoidal rule is the implicit-side weights applied to the new
      values set equal to the explicit-side weights applied to the old. */
  lemma TrapezoidIsCombine(p: Params, r: real, qm: real, q: real, qp: real, um: real, u: real, up: real)
    requires Valid(p)
    ensures Trapezoid(p, r, qm, q, qp, um, u, up) <==> Combine(Lhs(p, r), qm, q, qp) == Combine(Rhs(p, r), um, u, up)
  {
    LhsIsHalfStep(p, r, qm, q, qp);
    RhsIsHalfStep(p, r, um, u, up);
  }

  /** The implicit-side equations hold on a full row q, with the explicit
      side of prev on the right, exactly when q is a Crank-Nicolson step
      from prev. */
  lemma RowsMeaning(p: Params, prev: Row, q: Row)
    requires Valid(p) && p.intervals >= 3 && |prev| == p.intervals + 1 && |q| == p.intervals + 1
    ensures Holds(LhsRows(p), q, RhsVector(p, prev)) <==> Equations(p, prev, q)
  {
    var w, d := LhsRows(p), RhsVector(p, prev);
    forall i | 1 <= i < p.intervals
      ensures HoldsAt(w, q, d, i - 1) <==> NodeEquation(p, prev, q, i)
    {
      RowIsTrapezoid(p, prev, q, i - 1);
    }
    forall k | 0 <= k < p.intervals - 1
      ensures HoldsAt(w, q, d, k) <==> NodeEquation(p, prev, q, k + 1)
    {
      RowIsTrapezoid(p, prev, q, k);
    }
  }

  /** x solves the step's band system exactly when the full row made of
      the new edge values and x is a Crank-Nicolson step from prev. */
  lemma SystemMeaning(p: Params, bc: Price, prev: Row, n: nat, x: seq<real>)
    requires Valid(p) && p.intervals >= 3 && |prev| == p.intervals + 1 && |x| == p.intervals - 1
    ensures Tridiagonal.Solves(StepSystem(p, bc, prev, n), x) <==> Equations(p, prev, Level(p, bc, n + 1, x))
  {
    AssemblyIsReduction(p, bc, prev, n);
    ReduceMeaning(LhsRows(p), RhsVector(p, prev), LeftValue(p, bc, n + 1), RightValue(p, bc, n + 1), x);
    RowsMeaning(p, prev, Level(p, bc, n + 1, x));
  }

  /** The same holds for the dense matrix with the corrected right-hand
      side, so solving the bands answers the dense system. */
  lemma DenseMeaning(p: Params, bc: Price, prev: Row, n: nat, x: seq<real>)
    requires Valid(p) && p.intervals >= 3 && |prev| == p.intervals + 1 && |x| == p.intervals - 1
    ensures LinAlg.Solves(Matrix(p), x, Corrected(p, bc, prev, n)) <==> Equations(p, prev, Level(p, bc, n + 1, x))
  {
    BandsKeepSolutions(Matrix(p), Corrected(p, bc, prev, n), x);
    SystemMeaning(p, bc, prev, n, x);
  }
}
