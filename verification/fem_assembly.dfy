/** Assembly of the finite-element mass and stiffness matrices over the hat
    basis. Each entry is an integral over the overlap of two supports; the
    quadrature rule itself is a parameter, so what is modelled is which
    entries are integrated, over which interval, of which integrand, and
    how the two Crank-Nicolson matrices are formed from the results. */
module FemAssembly {
  import opened Mesh
  import opened LinAlg
  import opened HatBasis

  /** A quadrature rule: an approximation of the integral of f over
      [a, b]. */
  type Quadrature = (real -> real, real, real) -> real

  /** The mass integrand phi_i phi_j. */
  function MassIntegrand(p: Params, i: nat, j: nat): real -> real
    requires Valid(p) && i <= p.intervals && j <= p.intervals
  {
    x => Phi(p, i, x) * Phi(p, j, x)
  }

  /** The weak form of the pricing operator tested against phi_i:
      drift times phi_j' phi_i, minus half sigma^2 times phi_j' phi_i',
      minus discounting x phi_j phi_i. */
  function StiffnessIntegrand(p: Params, i: nat, j: nat): real -> real
    requires Valid(p) && i <= p.intervals && j <= p.intervals
  {
    x => p.kappa * (p.gamma - x) * DPhi(p, j, x) * Phi(p, i, x)
         - 0.5 * Sq(p.sigma) * DPhi(p, j, x) * DPhi(p, i, x)
         - x * Phi(p, j, x) * Phi(p, i, x)
  }

  /** Left end of the overlap of the supports of hats i and j. */
  function OverlapLo(p: Params, i: nat, j: nat): real
    requires Valid(p) && i <= p.intervals && j <= p.intervals
  {
    Max(SupportLo(p, i), SupportLo(p, j))
  }

  /** Right end of the overlap of the supports of hats i and j. */
  function OverlapHi(p: Params, i: nat, j: nat): real
    requires Valid(p) && i <= p.intervals && j <= p.intervals
  {
    Min(SupportHi(p, i), SupportHi(p, j))
  }

  function Max(a: real, b: real): real {
    if a < b then b else a
  }

  function Min(a: real, b: real): real {
    if a < b then a else b
  }

  /** The supports of hats i and j overlap in an interval of positive
      length. */
  predicate Overlap(p: Params, i: nat, j: nat)
    requires Valid(p) && i <= p.intervals && j <= p.intervals
  {
    OverlapLo(p, i, j) < OverlapHi(p, i, j)
  }

  /** Two hats overlap exactly when they are the same hat or neighbours. */
  lemma OverlapIffNeighbours(p: Params, i: nat, j: nat)
    requires Valid(p) && i <= p.intervals && j <= p.intervals
    ensures Overlap(p, i, j) <==> (i <= j + 1 && j <= i + 1)
  {
    if i == j {
      OverlapSelf(p, i);
    } else if i + 1 == j {
      OverlapNeighbours(p, i, j);
    } else if j + 1 == i {
      OverlapNeighbours(p, j, i);
    } else if i + 1 < j {
      NoOverlapApart(p, i, j);
    } else {
      NoOverlapApart(p, j, i);
    }
  }

  /** A hat's support has positive length. */
  lemma OverlapSelf(p: Params, i: nat)
    requires Valid(p) && i <= p.intervals
    ensures Overlap(p, i, i)
  {
    var lo := if i == 0 then i else i - 1;
    var hi := if i == p.intervals then i else i + 1;
    RateOrder(p, lo, hi);
  }

  /** Neighbouring hats share the cell between their nodes. */
  lemma OverlapNeighbours(p: Params, i: nat, j: nat)
    requires Valid(p) && j <= p.intervals && i + 1 == j
    ensures Overlap(p, i, j) && Overlap(p, j, i)
  {
    RateOrder(p, i, j);
  }

  /** Hats two or more nodes apart share at most a point. */
  lemma NoOverlapApart(p: Params, i: nat, j: nat)
    requires Valid(p) && j <= p.intervals && i + 1 < j
    ensures !Overlap(p, i, j) && !Overlap(p, j, i)
  {
    RateOrder(p, i + 1, j - 1);
  }

  /** Off the overlap interval both integrands of the pair (i, j) vanish:
      integrating over the overlap only, and skipping pairs whose overlap
      is empty, leaves out nothing but single points. */
  lemma VanishOffOverlap(p: Params, i: nat, j: nat, x: real)
    requires Valid(p) && i <= p.intervals && j <= p.intervals
    requires x < OverlapLo(p, i, j) || x > OverlapHi(p, i, j)
    ensures MassIntegrand(p, i, j)(x) == 0.0
    ensures StiffnessIntegrand(p, i, j)(x) == 0.0
  {
    Support(p, i, x);
    Support(p, j, x);
    if !InSupport(p, i, x) {
      ZeroFactor(p, i, j, x);
    } else {
      assert !InSupport(p, j, x);
      ZeroFactor(p, j, i, x);
    }
  }

  /** If hat i and its slope vanish at x, so do both integrands of any
      pair containing i. */
  lemma ZeroFactor(p: Params, i: nat, j: nat, x: real)
    requires Valid(p) && i <= p.intervals && j <= p.intervals
    requires Phi(p, i, x) == 0.0 && DPhi(p, i, x) == 0.0
    ensures MassIntegrand(p, i, j)(x) == 0.0 && MassIntegrand(p, j, i)(x) == 0.0
    ensures StiffnessIntegrand(p, i, j)(x) == 0.0 && StiffnessIntegrand(p, j, i)(x) == 0.0
  {
  }

  /** The matrix whose entry (i, j) is the quadrature of integrand(i, j)
      over the overlap of the two supports when that overlap is not empty,
      and zero otherwise. */
  function Assemble(p: Params, quad: Quadrature, stiffness: bool): (A: Matrix)
    requires Valid(p)
    ensures IsMatrix(A, p.intervals + 1, p.intervals + 1)
  {
    var n := p.intervals + 1;
    seq(n, i requires 0 <= i < n =>
      seq(n, j requires 0 <= j < n => Entry(p, quad, stiffness, i, j)))
  }

  /** One assembled entry. */
  function Entry(p: Params, quad: Quadrature, stiffness: bool, i: nat, j: nat): real
    requires Valid(p) && i <= p.intervals && j <= p.intervals
  {
    if Overlap(p, i, j) then
      quad(if stiffness then StiffnessIntegrand(p, i, j) else MassIntegrand(p, i, j),
           OverlapLo(p, i, j), OverlapHi(p, i, j))
    else 0.0
  }

  /** The mass matrix M[i, j] = integral of phi_i phi_j. */
  function MassMatrix(p: Params, quad: Quadrature): (A: Matrix)
    requires Valid(p)
    ensures IsMatrix(A, p.intervals + 1, p.intervals + 1)
  {
    Assemble(p, quad, false)
  }

  /** The stiffness matrix B[i, j] = the weak operator of phi_j tested
      against phi_i. */
  function StiffnessMatrix(p: Params, quad: Quadrature): (A: Matrix)
    requires Valid(p)
    ensures IsMatrix(A, p.intervals + 1, p.intervals + 1)
  {
    Assemble(p, quad, true)
  }

  /** Assembled matrices are tridiagonal whatever the quadrature, and
      inside the band every entry is the quadrature over the overlap. */
  lemma AssembledBanded(p: Params, quad: Quadrature, stiffness: bool)
    requires Valid(p)
    ensures Banded(Assemble(p, quad, stiffness))
    ensures forall i, j :: 0 <= i <= p.intervals && 0 <= j <= p.intervals && i <= j + 1 && j <= i + 1 ==>
      Assemble(p, quad, stiffness)[i][j] ==
        quad(if stiffness then StiffnessIntegrand(p, i, j) else MassIntegrand(p, i, j),
             OverlapLo(p, i, j), OverlapHi(p, i, j))
  {
    forall i, j | 0 <= i <= p.intervals && 0 <= j <= p.intervals
      ensures Overlap(p, i, j) <==> (i <= j + 1 && j <= i + 1)
    {
      OverlapIffNeighbours(p, i, j);
    }
  }

  /** With a quadrature that depends only on the values of its integrand,
      the mass matrix is symmetric. */
  lemma MassSymmetric(p: Params, quad: Quadrature, i: nat, j: nat)
    requires Valid(p) && i <= p.intervals && j <= p.intervals
    requires quad(MassIntegrand(p, i, j), OverlapLo(p, i, j), OverlapHi(p, i, j))
          == quad(MassIntegrand(p, j, i), OverlapLo(p, i, j), OverlapHi(p, i, j))
    ensures MassMatrix(p, quad)[i][j] == MassMatrix(p, quad)[j][i]
  {
    assert OverlapLo(p, i, j) == OverlapLo(p, j, i);
    assert OverlapHi(p, i, j) == OverlapHi(p, j, i);
  }

  /** A + c B, entry by entry. */
  function Blend(A: Matrix, c: real, B: Matrix, n: nat): (C: Matrix)
    requires IsMatrix(A, n, n) && IsMatrix(B, n, n)
    ensures IsMatrix(C, n, n)
    ensures forall i, j :: 0 <= i < n && 0 <= j < n ==> C[i][j] == A[i][j] + c * B[i][j]
  {
    seq(n, i requires 0 <= i < n => seq(n, j requires 0 <= j < n => A[i][j] + c * B[i][j]))
  }

  /** The Crank-Nicolson matrix of the new level, M - (dtau/2) B. */
  function LhsMatrix(p: Params, quad: Quadrature): (A: Matrix)
    requires Valid(p)
    ensures IsMatrix(A, p.intervals + 1, p.intervals + 1)
  {
    Blend(MassMatrix(p, quad), -(Dtau(p) / 2.0), StiffnessMatrix(p, quad), p.intervals + 1)
  }

  /** The Crank-Nicolson matrix of the old level, M + (dtau/2) B. */
  function RhsMatrix(p: Params, quad: Quadrature): (A: Matrix)
    requires Valid(p)
    ensures IsMatrix(A, p.intervals + 1, p.intervals + 1)
  {
    Blend(MassMatrix(p, quad), Dtau(p) / 2.0, StiffnessMatrix(p, quad), p.intervals + 1)
  }

  /** The two step matrices average to the mass matrix and differ by dtau
      times the stiffness matrix, and both are tridiagonal. */
  lemma StepMatrices(p: Params, quad: Quadrature)
    requires Valid(p)
    ensures forall i, j :: 0 <= i <= p.intervals && 0 <= j <= p.intervals ==>
      && LhsMatrix(p, quad)[i][j] + RhsMatrix(p, quad)[i][j] == 2.0 * MassMatrix(p, quad)[i][j]
      && RhsMatrix(p, quad)[i][j] - LhsMatrix(p, quad)[i][j] == Dtau(p) * StiffnessMatrix(p, quad)[i][j]
    ensures Banded(LhsMatrix(p, quad)) && Banded(RhsMatrix(p, quad))
  {
    AssembledBanded(p, quad, false);
    AssembledBanded(p, quad, true);
  }
}
