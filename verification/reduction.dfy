/** Three-point equations over a full row of the rate grid, and their
    reduction to a tridiagonal system over the interior nodes once the two
    edge values are known. The implicit and Crank-Nicolson steps are both
    built this way. */
module Reduction {
  import opened Mesh
  import opened Tridiagonal

  /** The weights of one equation on the left neighbour, the node itself
      and the right neighbour. */
  datatype Weights = Weights(lower: real, diag: real, upper: real)

  /** The left-hand side of one three-point equation. */
  function Combine(w: Weights, qm: real, q: real, qp: real): real {
    w.lower * qm + w.diag * q + w.upper * qp
  }

  /** The full row q satisfies equation k (centred on node k + 1) for every
      k, with right-hand side rhs[k]. */
  predicate Holds(w: seq<Weights>, q: Row, rhs: seq<real>) {
    && |q| == |w| + 2 && |rhs| == |w|
    && forall k :: 0 <= k < |w| ==> HoldsAt(w, q, rhs, k)
  }

  /** Equation k holds on the full row q. */
  predicate HoldsAt(w: seq<Weights>, q: Row, rhs: seq<real>, k: nat)
    requires |q| == |w| + 2 && |rhs| == |w| && k < |w|
  {
    Combine(w[k], q[k], q[k + 1], q[k + 2]) == rhs[k]
  }

  /** The interior entries 1 .. |row|-2 of a full row. */
  function Interior(row: Row): (v: seq<real>)
    requires |row| >= 2
    ensures |v| == |row| - 2
    ensures forall k :: 0 <= k < |v| ==> v[k] == row[k + 1]
  {
    row[1..|row| - 1]
  }

  /** The tridiagonal system of the equations w with right-hand side rhs
      once the edge values left and right are fixed: the first row drops
      its lower weight and the last its upper weight (those slots are stored
      as zero), and the known edge terms move to the right-hand side. */
  function Reduce(w: seq<Weights>, rhs: seq<real>, left: real, right: real): (s: System)
    requires |w| >= 2 && |rhs| == |w|
    ensures WellFormed(s) && |s.b| == |w|
  {
    var m := |w|;
    var a := seq(m, k requires 0 <= k < m => if k == 0 then 0.0 else w[k].lower);
    var b := seq(m, k requires 0 <= k < m => w[k].diag);
    var c := seq(m, k requires 0 <= k < m => if k < m - 1 then w[k].upper else 0.0);
    System(a, b, c, AddEdges(rhs, -(w[0].lower * left), -(w[m - 1].upper * right)))
  }

  /** d with first added to its first entry and last to its last entry. */
  function AddEdges(d: seq<real>, first: real, last: real): (e: seq<real>)
    requires |d| >= 2
    ensures |e| == |d|
    ensures e[0] == d[0] + first && e[|d| - 1] == d[|d| - 1] + last
    ensures forall k :: 0 < k < |d| - 1 ==> e[k] == d[k]
  {
    var d1 := d[0 := d[0] + first];
    d1[|d1| - 1 := d1[|d1| - 1] + last]
  }

  /** The right-hand side of the reduced system adds minus the first
      row's lower weight times the left value, and minus the last row's
      upper weight times the right value. */
  lemma ReducedRhs(w: seq<Weights>, rhs: seq<real>, left: real, right: real, first: real, last: real)
    requires |w| >= 2 && |rhs| == |w|
    requires first == -(w[0].lower * left) && last == -(w[|w| - 1].upper * right)
    ensures Reduce(w, rhs, left, right).d == AddEdges(rhs, first, last)
  {
  }

  /** Row k of the reduced system, minus its right-hand side, is the
      residual of equation k on the full row. */
  lemma ReducedRow(w: seq<Weights>, rhs: seq<real>, left: real, right: real, x: seq<real>, k: nat)
    requires |w| >= 2 && |rhs| == |w| && |x| == |w| && k < |w|
    ensures var s := Reduce(w, rhs, left, right);
      var q := Embed(left, x, right);
      RowValue(s, x, k) - s.d[k] == Combine(w[k], q[k], q[k + 1], q[k + 2]) - rhs[k]
  {
    var s := Reduce(w, rhs, left, right);
    var q := Embed(left, x, right);
    var m := |w|;
    assert s.b[k] == w[k].diag;
    if k == 0 {
      assert q[0] == left && q[1] == x[0] && q[2] == x[1];
      assert s.c[0] == w[0].upper && s.d[0] == rhs[0] - w[0].lower * left;
      assert RowValue(s, x, 0) == w[0].diag * x[0] + w[0].upper * x[1];
    } else if k == m - 1 {
      assert q[k] == x[k - 1] && q[k + 1] == x[k] && q[k + 2] == right;
      assert s.a[k] == w[k].lower && s.d[k] == rhs[k] - w[k].upper * right;
      assert RowValue(s, x, k) == w[k].lower * x[k - 1] + w[k].diag * x[k];
    } else {
      assert q[k] == x[k - 1] && q[k + 1] == x[k] && q[k + 2] == x[k + 1];
      assert s.a[k] == w[k].lower && s.c[k] == w[k].upper && s.d[k] == rhs[k];
      assert RowValue(s, x, k) == Combine(w[k], q[k], q[k + 1], q[k + 2]);
    }
  }

  /** x solves the reduced system exactly when the full row made of the
      edge values and x satisfies every equation. */
  lemma ReduceMeaning(w: seq<Weights>, rhs: seq<real>, left: real, right: real, x: seq<real>)
    requires |w| >= 2 && |rhs| == |w| && |x| == |w|
    ensures Solves(Reduce(w, rhs, left, right), x) <==> Holds(w, Embed(left, x, right), rhs)
  {
    var s := Reduce(w, rhs, left, right);
    var q := Embed(left, x, right);
    forall k | 0 <= k < |w|
      ensures RowValue(s, x, k) == s.d[k] <==> HoldsAt(w, q, rhs, k)
    {
      ReducedRow(w, rhs, left, right, x, k);
    }
  }
}
