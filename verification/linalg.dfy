/** Dense vectors and matrices over the reals, with the few facts about dot
    products that the finite-element and Crank-Nicolson models rely on. */
module LinAlg {

  type Vector = seq<real>
  type Matrix = seq<seq<real>>

  /** A has the given number of rows, each of the given length. */
  predicate IsMatrix(A: Matrix, rows: nat, cols: nat) {
    |A| == rows && forall i :: 0 <= i < rows ==> |A[i]| == cols
  }

  /** Entries more than one place off the diagonal are zero. */
  predicate Banded(A: Matrix)
    requires IsMatrix(A, |A|, |A|)
  {
    forall i, j :: 0 <= i < |A| && 0 <= j < |A| && (j + 1 < i || i + 1 < j) ==> A[i][j] == 0.0
  }

  function Dot(u: Vector, v: Vector): real
    requires |u| == |v|
    decreases |u|
  {
    if |u| == 0 then 0.0 else u[0] * v[0] + Dot(u[1..], v[1..])
  }

  /** The matrix-vector product (`A @ x`). */
  function MatVec(A: Matrix, x: Vector): (y: Vector)
    requires IsMatrix(A, |A|, |x|)
    ensures |y| == |A|
    ensures forall i :: 0 <= i < |A| ==> y[i] == Dot(A[i], x)
  {
    seq(|A|, i requires 0 <= i < |A| => Dot(A[i], x))
  }

  /** x solves the square system A x = b. */
  predicate Solves(A: Matrix, x: Vector, b: Vector) {
    IsMatrix(A, |b|, |x|) && |x| == |b| && forall i :: 0 <= i < |b| ==> Dot(A[i], x) == b[i]
  }

  /** The k-th unit row e_k of length n. */
  function Unit(n: nat, k: nat): (e: Vector)
    ensures |e| == n
    ensures forall j :: 0 <= j < n ==> e[j] == if j == k then 1.0 else 0.0
  {
    seq(n, j => if j == k then 1.0 else 0.0)
  }

  /** Changing entry k of u by delta changes u . x by delta * x[k]. */
  lemma {:induction false} DotUpdate(u: Vector, x: Vector, k: nat, v: real)
    requires |u| == |x| && k < |u|
    ensures Dot(u[k := v], x) == Dot(u, x) + (v - u[k]) * x[k]
    decreases |u|
  {
    if k == 0 {
      assert u[k := v][1..] == u[1..];
    } else {
      assert u[k := v][1..] == u[1..][k - 1 := v];
      DotUpdate(u[1..], x[1..], k - 1, v);
    }
  }

  /** A row of zeros contributes nothing. */
  lemma {:induction false} DotZero(u: Vector, x: Vector)
    requires |u| == |x|
    requires forall j :: 0 <= j < |u| ==> u[j] == 0.0
    ensures Dot(u, x) == 0.0
    decreases |u|
  {
    if |u| > 0 {
      DotZero(u[1..], x[1..]);
    }
  }

  /** Multiplying by the unit row e_k picks out entry k. */
  lemma DotUnit(x: Vector, k: nat)
    requires k < |x|
    ensures Dot(Unit(|x|, k), x) == x[k]
  {
    var z := seq(|x|, _ => 0.0);
    DotZero(z, x);
    DotUpdate(z, x, k, 1.0);
    assert z[k := 1.0] == Unit(|x|, k);
  }

  /** Clearing entry k of u removes exactly the term u[k] * x[k]. */
  lemma DotClear(u: Vector, x: Vector, k: nat)
    requires |u| == |x| && k < |u|
    ensures Dot(u, x) == Dot(u[k := 0.0], x) + u[k] * x[k]
  {
    DotUpdate(u, x, k, 0.0);
  }

  /** u vanishes everywhere except, possibly, at positions i-1, i and i+1. */
  predicate BandRow(u: Vector, i: nat) {
    forall j :: 0 <= j < |u| && (j + 1 < i || i + 1 < j) ==> u[j] == 0.0
  }

  /** An interior band row meets x in three terms. */
  lemma DotBandMiddle(u: Vector, x: Vector, i: nat)
    requires |u| == |x| && 0 < i && i + 1 < |u| && BandRow(u, i)
    ensures Dot(u, x) == u[i - 1] * x[i - 1] + u[i] * x[i] + u[i + 1] * x[i + 1]
  {
    var z3 := u[i - 1 := 0.0][i := 0.0][i + 1 := 0.0];
    ClearThree(u, x, i);
    assert forall j :: 0 <= j < |u| ==> z3[j] == 0.0;
    DotZero(z3, x);
  }

  /** Clearing entries i - 1, i and i + 1 removes exactly their terms. */
  lemma ClearThree(u: Vector, x: Vector, i: nat)
    requires |u| == |x| && 0 < i && i + 1 < |u|
    ensures Dot(u, x) == Dot(u[i - 1 := 0.0][i := 0.0][i + 1 := 0.0], x)
                         + u[i - 1] * x[i - 1] + u[i] * x[i] + u[i + 1] * x[i + 1]
  {
    var z1 := u[i - 1 := 0.0];
    var z2 := z1[i := 0.0];
    DotClear(u, x, i - 1);
    DotClear(z1, x, i);
    DotClear(z2, x, i + 1);
    assert z1[i] == u[i] && z2[i + 1] == u[i + 1];
  }

  /** The first band row meets x in two terms. */
  lemma DotBandFirst(u: Vector, x: Vector)
    requires |u| == |x| && 1 < |u| && BandRow(u, 0)
    ensures Dot(u, x) == u[0] * x[0] + u[1] * x[1]
  {
    var z2 := u[0 := 0.0][1 := 0.0];
    ClearTwo(u, x, 0);
    assert forall j :: 0 <= j < |u| ==> z2[j] == 0.0;
    DotZero(z2, x);
  }

  /** The last band row meets x in two terms. */
  lemma DotBandLast(u: Vector, x: Vector)
    requires |u| == |x| && 1 < |u| && BandRow(u, |u| - 1)
    ensures Dot(u, x) == u[|u| - 2] * x[|u| - 2] + u[|u| - 1] * x[|u| - 1]
  {
    var n := |u|;
    var z2 := u[n - 2 := 0.0][n - 1 := 0.0];
    ClearTwo(u, x, n - 2);
    assert forall j :: 0 <= j < n ==> z2[j] == 0.0;
    DotZero(z2, x);
  }

  /** Clearing entries k and k + 1 removes exactly their terms. */
  lemma ClearTwo(u: Vector, x: Vector, k: nat)
    requires |u| == |x| && k + 1 < |u|
    ensures Dot(u, x) == Dot(u[k := 0.0][k + 1 := 0.0], x) + u[k] * x[k] + u[k + 1] * x[k + 1]
  {
    var z1 := u[k := 0.0];
    DotClear(u, x, k);
    DotClear(z1, x, k + 1);
    assert z1[k + 1] == u[k + 1];
  }

  /** Clearing the first and last entries of u removes exactly their two
      terms. */
  lemma DotClearEdges(u: Vector, x: Vector)
    requires |u| == |x| && 1 < |u|
    ensures Dot(u[0 := 0.0][|u| - 1 := 0.0], x) == Dot(u, x) - u[0] * x[0] - u[|u| - 1] * x[|u| - 1]
  {
    DotClear(u, x, 0);
    DotClear(u[0 := 0.0], x, |u| - 1);
  }
}
