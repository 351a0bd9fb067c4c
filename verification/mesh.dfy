/** Parameters of one pricing run, the pseudo-time, calendar-time and rate
    grids built from them, and the row/field shapes every scheme shares. */
module Mesh {

  /** The model constants and the discretisation of one run: mean-reversion
      speed kappa, long-run mean gamma, volatility sigma, maturity T, the
      number N of pseudo-time steps and M of rate intervals, and the rate
      domain [rMin, rMax]. */
  datatype Params = Params(
    kappa: real,
    gamma: real,
    sigma: real,
    maturity: real,
    steps: nat,
    intervals: nat,
    rMin: real,
    rMax: real)

  /** The closed-form bond price V(t, r), supplied by the caller. */
  type Price = (real, real) -> real

  /** One time level of a price field, indexed by rate node 0..M. */
  type Row = seq<real>

  /** A price field, indexed by time level and then by rate node. */
  type Field = seq<Row>

  /** Both step sizes are well defined and the rate mesh is non-degenerate. */
  predicate Valid(p: Params) {
    p.steps >= 1 && p.intervals >= 1 && p.rMin < p.rMax
  }

  /** The square x**2. */
  function Sq(x: real): real {
    x * x
  }

  /** Pseudo-time step T / N. */
  function Dtau(p: Params): real
    requires Valid(p)
  {
    p.maturity / p.steps as real
  }

  /** Rate step (rMax - rMin) / M. */
  function Dr(p: Params): (dr: real)
    requires Valid(p)
    ensures dr > 0.0
  {
    (p.rMax - p.rMin) / p.intervals as real
  }

  /** The n-th pseudo-time point, n * T / N. */
  function Tau(p: Params, n: nat): real
    requires Valid(p)
  {
    n as real * Dtau(p)
  }

  /** The i-th rate node, rMin + i * dr. */
  function Rate(p: Params, i: nat): real
    requires Valid(p)
  {
    p.rMin + i as real * Dr(p)
  }

  lemma TauLast(p: Params)
    requires Valid(p)
    ensures Tau(p, p.steps) == p.maturity
  {
    var n := p.steps as real;
    assert n * (p.maturity / n) == p.maturity;
  }

  lemma RateLast(p: Params)
    requires Valid(p)
    ensures Rate(p, p.intervals) == p.rMax
  {
    var m := p.intervals as real;
    assert m * ((p.rMax - p.rMin) / m) == p.rMax - p.rMin;
  }

  /** Consecutive rate nodes are exactly dr apart. */
  lemma RateNext(p: Params, i: nat)
    requires Valid(p)
    ensures Rate(p, i + 1) == Rate(p, i) + Dr(p)
  {
    assert (i + 1) as real * Dr(p) == i as real * Dr(p) + Dr(p);
  }

  /** Consecutive pseudo-time points are exactly dtau apart. */
  lemma TauNext(p: Params, n: nat)
    requires Valid(p)
    ensures Tau(p, n + 1) == Tau(p, n) + Dtau(p)
  {
    assert (n + 1) as real * Dtau(p) == n as real * Dtau(p) + Dtau(p);
  }

  /** Rate nodes are strictly increasing in their index. */
  lemma RateOrder(p: Params, i: nat, j: nat)
    requires Valid(p)
    ensures i < j <==> Rate(p, i) < Rate(p, j)
    ensures i == j <==> Rate(p, i) == Rate(p, j)
  {
    var dr := Dr(p);
    assert Rate(p, j) - Rate(p, i) == (j as real - i as real) * dr;
    if i < j {
      assert (j as real - i as real) * dr > 0.0;
    } else if j < i {
      assert (i as real - j as real) * dr > 0.0;
    }
  }

  /** Pseudo-time and calendar time at grid level n are T apart from each
      other: calendar time T - tau_n is the pseudo-time point N - n. */
  lemma CalendarOfLevel(p: Params, n: nat)
    requires Valid(p) && n <= p.steps
    ensures p.maturity - Tau(p, n) == Tau(p, p.steps - n)
  {
    TauLast(p);
    var d := Dtau(p);
    assert (p.steps - n) as real * d == p.steps as real * d - n as real * d;
  }

  /** The pseudo-time grid tau_0 .. tau_N (tau_grid). */
  function TauGrid(p: Params): (g: seq<real>)
    requires Valid(p)
    ensures |g| == p.steps + 1
    ensures g[0] == 0.0 && g[p.steps] == p.maturity
    ensures forall k :: 0 <= k < p.steps ==> g[k + 1] == g[k] + Dtau(p)
  {
    TauLast(p);
    forall k: nat {
      TauNext(p, k);
    }
    seq(p.steps + 1, k requires 0 <= k <= p.steps => Tau(p, k))
  }

  /** The calendar-time grid, the pseudo-time points mapped by t = T - tau
      and listed in reverse order (t_grid). */
  function CalendarGrid(p: Params): (g: seq<real>)
    requires Valid(p)
    ensures |g| == p.steps + 1
    ensures g == TauGrid(p)
  {
    var g := seq(p.steps + 1, k requires 0 <= k <= p.steps => p.maturity - Tau(p, p.steps - k));
    forall k | 0 <= k <= p.steps
      ensures g[k] == TauGrid(p)[k]
    {
      CalendarOfLevel(p, p.steps - k);
    }
    g
  }

  /** The rate grid r_0 .. r_M (r_grid). */
  function RateGrid(p: Params): (g: seq<real>)
    requires Valid(p)
    ensures |g| == p.intervals + 1
    ensures g[0] == p.rMin && g[p.intervals] == p.rMax
    ensures forall i :: 0 <= i < p.intervals ==> g[i] < g[i + 1] == g[i] + Dr(p)
  {
    RateLast(p);
    forall i: nat {
      RateNext(p, i);
    }
    seq(p.intervals + 1, i requires 0 <= i <= p.intervals => Rate(p, i))
  }

  /** The terminal condition Q(0, r) = 1 on w nodes. */
  function Ones(w: nat): (row: Row)
    ensures |row| == w
    ensures forall i :: 0 <= i < w ==> row[i] == 1.0
  {
    seq(w, _ => 1.0)
  }

  /** Dirichlet value on the left edge for pseudo-time level n: the
      closed-form price at calendar time T - tau_n and rate rMin. */
  function LeftValue(p: Params, bc: Price, n: nat): real
    requires Valid(p)
  {
    bc(p.maturity - Tau(p, n), p.rMin)
  }

  /** Dirichlet value on the right edge for pseudo-time level n. */
  function RightValue(p: Params, bc: Price, n: nat): real
    requires Valid(p)
  {
    bc(p.maturity - Tau(p, n), p.rMax)
  }

  /** A full row of level n carries the closed-form price in its two edge
      entries. */
  predicate OnBoundary(p: Params, bc: Price, row: Row, n: nat)
    requires Valid(p) && |row| == p.intervals + 1
  {
    row[0] == LeftValue(p, bc, n) && row[p.intervals] == RightValue(p, bc, n)
  }

  /** A full row of the rate grid from its two edge values and its interior
      values. */
  function Embed(left: real, interior: Row, right: real): (row: Row)
    ensures |row| == |interior| + 2
    ensures row[0] == left && row[|interior| + 1] == right
    ensures forall k :: 0 <= k < |interior| ==> row[k + 1] == interior[k]
  {
    [left] + interior + [right]
  }

  /** The full row of level n made of the closed-form edge values and
      the interior values x. */
  function Level(p: Params, bc: Price, n: nat, x: seq<real>): (q: Row)
    requires Valid(p)
    ensures |q| == |x| + 2
  {
    Embed(LeftValue(p, bc, n), x, RightValue(p, bc, n))
  }

  /** Time reversal of a field: Q[::-1, :]. */
  function Reverse<T>(s: seq<T>): (r: seq<T>)
    ensures |r| == |s|
    ensures forall k :: 0 <= k < |s| ==> r[k] == s[|s| - 1 - k]
  {
    if |s| == 0 then [] else Reverse(s[1..]) + [s[0]]
  }

  /** Reversing twice gives the original field back. */
  lemma ReverseReverse<T>(s: seq<T>)
    ensures Reverse(Reverse(s)) == s
  {
  }
}
