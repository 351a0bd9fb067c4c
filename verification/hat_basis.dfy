/** The piecewise-linear finite-element basis on the rate grid: hat i is 1
    at node i, 0 at every other node and linear on each cell; the two edge
    hats are half hats living on the first and last cell only. */
module HatBasis {
  import opened Mesh

  /** Hat function i at rate r, with the edge hats and the tie-breaking at
      the nodes exactly as the scheme writes them. */
  function Phi(p: Params, i: nat, r: real): real
    requires Valid(p) && i <= p.intervals
  {
    var m := p.intervals;
    if i == 0 then
      (if Rate(p, 0) <= r <= Rate(p, 1) then (Rate(p, 1) - r) / Dr(p) else 0.0)
    else if i == m then
      (if Rate(p, m - 1) <= r <= Rate(p, m) then (r - Rate(p, m - 1)) / Dr(p) else 0.0)
    else if r < Rate(p, i - 1) || r > Rate(p, i + 1) then 0.0
    else if r <= Rate(p, i) then (r - Rate(p, i - 1)) / Dr(p)
    else (Rate(p, i + 1) - r) / Dr(p)
  }

  /** The slope the scheme assigns to hat i at rate r: +-1/dr on the
      support, the falling slope at the peak of an interior hat. */
  function DPhi(p: Params, i: nat, r: real): real
    requires Valid(p) && i <= p.intervals
  {
    var m := p.intervals;
    if i == 0 then
      (if Rate(p, 0) <= r <= Rate(p, 1) then -1.0 / Dr(p) else 0.0)
    else if i == m then
      (if Rate(p, m - 1) <= r <= Rate(p, m) then 1.0 / Dr(p) else 0.0)
    else if r < Rate(p, i - 1) || r > Rate(p, i + 1) then 0.0
    else if r < Rate(p, i) then 1.0 / Dr(p)
    else -1.0 / Dr(p)
  }

  /** Left end of the support of hat i: r_0 for the first hat, r_{i-1}
      otherwise. */
  function SupportLo(p: Params, i: nat): real
    requires Valid(p) && i <= p.intervals
  {
    if i == 0 then Rate(p, 0) else Rate(p, i - 1)
  }

  /** Right end of the support of hat i: r_M for the last hat, r_{i+1}
      otherwise. */
  function SupportHi(p: Params, i: nat): real
    requires Valid(p) && i <= p.intervals
  {
    if i == p.intervals then Rate(p, p.intervals) else Rate(p, i + 1)
  }

  /** r lies in the closed support of hat i. */
  predicate InSupport(p: Params, i: nat, r: real)
    requires Valid(p) && i <= p.intervals
  {
    SupportLo(p, i) <= r <= SupportHi(p, i)
  }

  /** r lies in the closed cell [r_j, r_{j+1}]. */
  predicate InCell(p: Params, j: nat, r: real)
    requires Valid(p)
  {
    j < p.intervals && Rate(p, j) <= r <= Rate(p, j + 1)
  }

  /** The slope is one of -1/dr, 0 and 1/dr; it is nonzero exactly on
      the closed support, and the hat itself vanishes off it. */
  lemma Support(p: Params, i: nat, r: real)
    requires Valid(p) && i <= p.intervals
    ensures DPhi(p, i, r) == 0.0 || DPhi(p, i, r) == 1.0 / Dr(p) || DPhi(p, i, r) == -1.0 / Dr(p)
    ensures DPhi(p, i, r) != 0.0 <==> InSupport(p, i, r)
    ensures !InSupport(p, i, r) ==> Phi(p, i, r) == 0.0
  {
    var dr := Dr(p);
    assert 1.0 / dr != 0.0 && -1.0 / dr != 0.0;
    if 0 < i < p.intervals {
      RateOrder(p, i - 1, i);
      RateOrder(p, i, i + 1);
    }
  }

  /** The hat is never negative and never above one. */
  lemma Range(p: Params, i: nat, r: real)
    requires Valid(p) && i <= p.intervals
    ensures 0.0 <= Phi(p, i, r) <= 1.0
  {
    var m := p.intervals;
    if i == 0 {
      RateNext(p, 0);
      Fraction(Rate(p, 1) - r, Dr(p));
    } else if i == m {
      RateNext(p, m - 1);
      Fraction(r - Rate(p, m - 1), Dr(p));
    } else {
      RateNext(p, i - 1);
      RateNext(p, i);
      Fraction(r - Rate(p, i - 1), Dr(p));
      Fraction(Rate(p, i + 1) - r, Dr(p));
    }
  }

  /** A quotient x / d with 0 <= x <= d lies in [0, 1]. */
  lemma Fraction(x: real, d: real)
    requires d > 0.0
    ensures 0.0 <= x <= d ==> 0.0 <= x / d <= 1.0
  {
  }

  /** On cell j only hats j and j + 1 are nonzero: hat j falls linearly
      from 1 to 0 across the cell and hat j + 1 rises from 0 to 1. */
  lemma OnCell(p: Params, j: nat, r: real)
    requires Valid(p) && InCell(p, j, r)
    ensures Phi(p, j, r) == (Rate(p, j + 1) - r) / Dr(p)
    ensures Phi(p, j + 1, r) == (r - Rate(p, j)) / Dr(p)
  {
    RateNext(p, j);
    if 0 < j {
      RateNext(p, j - 1);
      if r == Rate(p, j) {
        SameQuotient(r - Rate(p, j - 1), Rate(p, j + 1) - r, Dr(p));
      }
    }
    if j + 1 < p.intervals {
      RateNext(p, j + 1);
    }
  }

  /** Equal numerators give equal quotients. */
  lemma SameQuotient(x: real, y: real, d: real)
    requires d > 0.0 && x == y
    ensures x / d == y / d
  {
  }

  /** Every other hat vanishes on the whole closed cell j. */
  lemma OffCell(p: Params, i: nat, j: nat, r: real)
    requires Valid(p) && i <= p.intervals && InCell(p, j, r) && i != j && i != j + 1
    ensures Phi(p, i, r) == 0.0
    ensures DPhi(p, i, r) == 0.0 || r == Rate(p, j) || r == Rate(p, j + 1)
  {
    if i < j {
      RateOrder(p, i + 1, j);
    } else {
      RateOrder(p, j + 1, i - 1);
    }
  }

  /** Hats i and j + 1 on cell j, in one statement: hat j falls, hat j + 1
      rises, every other hat is zero. */
  lemma HatOnCell(p: Params, i: nat, j: nat, r: real)
    requires Valid(p) && i <= p.intervals && InCell(p, j, r)
    ensures Phi(p, i, r) == if i == j then (Rate(p, j + 1) - r) / Dr(p)
                            else if i == j + 1 then (r - Rate(p, j)) / Dr(p)
                            else 0.0
  {
    OnCell(p, j, r);
    if i != j && i != j + 1 {
      OffCell(p, i, j, r);
    }
  }

  /** Hat i is 1 at its own node and 0 at every other node. */
  lemma Kronecker(p: Params, i: nat, j: nat)
    requires Valid(p) && i <= p.intervals && j <= p.intervals
    ensures Phi(p, i, Rate(p, j)) == if i == j then 1.0 else 0.0
  {
    var dr := Dr(p);
    RateNext(p, if j < p.intervals then j else j - 1);
    assert dr / dr == 1.0;
    if j < p.intervals {
      HatOnCell(p, i, j, Rate(p, j));
    } else {
      HatOnCell(p, i, j - 1, Rate(p, j));
    }
  }

  /** phi_0(r) + ... phi_{n-1}(r). */
  function HatSum(p: Params, r: real, n: nat): real
    requires Valid(p) && n <= p.intervals + 1
  {
    if n == 0 then 0.0 else HatSum(p, r, n - 1) + Phi(p, n - 1, r)
  }

  /** Partial sums of the hats at a point of cell j: nothing before hat j,
      then hat j, then both of the cell's hats. */
  lemma {:induction false} PartialSums(p: Params, j: nat, r: real, n: nat)
    requires Valid(p) && InCell(p, j, r) && n <= p.intervals + 1
    ensures HatSum(p, r, n) == if n <= j then 0.0
                               else if n == j + 1 then Phi(p, j, r)
                               else Phi(p, j, r) + Phi(p, j + 1, r)
  {
    if n > 0 {
      PartialSums(p, j, r, n - 1);
      HatOnCell(p, n - 1, j, r);
    }
  }

  /** The cell of the grid that contains a rate of the domain. */
  function Cell(p: Params, r: real): (j: nat)
    requires Valid(p) && p.rMin <= r <= p.rMax
    ensures InCell(p, j, r)
  {
    var x := (r - p.rMin) / Dr(p);
    var f := x.Floor;
    var m := p.intervals;
    RateLast(p);
    ScaledFloor(x, f, Dr(p), p.rMin, r);
    assert 0 <= f;
    if f < m then
      (assert Rate(p, f) <= r && Rate(p, f + 1) > r; f)
    else
      (RateNext(p, m - 1); RateOrder(p, m - 1, m); m - 1)
  }

  /** The floor f of x = (r - lo) / d brackets r between lo + f d and
      lo + (f + 1) d. */
  lemma ScaledFloor(x: real, f: int, d: real, lo: real, r: real)
    requires d > 0.0 && x == (r - lo) / d && f as real <= x < f as real + 1.0 && lo <= r
    ensures 0 <= f
    ensures lo + f as real * d <= r
    ensures r < lo + (f + 1) as real * d
  {
    Unscale(x, r - lo, d);
    var g := f as real;
    var h := (f + 1) as real;
    assert h == g + 1.0;
    assert g <= x < h;
    ScaleLe(g, x, d);
    ScaleLt(x, h, d);
    Bracket(lo, r, x * d, g * d, h * d);
  }

  /** Dividing by d and multiplying back gives the numerator. */
  lemma Unscale(x: real, a: real, d: real)
    requires d > 0.0 && x == a / d
    ensures x * d == a
  {
  }

  /** r - lo bracketed between two bounds brackets r between lo plus
      them. */
  lemma Bracket(lo: real, r: real, xd: real, low: real, high: real)
    requires xd == r - lo && low <= xd < high
    ensures lo + low <= r < lo + high
  {
  }

  /** Scaling by a positive factor keeps the order. */
  lemma ScaleLe(a: real, b: real, d: real)
    requires d > 0.0 && a <= b
    ensures a * d <= b * d
  {
  }

  /** Strict order is preserved by scaling with a positive factor. */
  lemma ScaleLt(a: real, b: real, d: real)
    requires d > 0.0 && a < b
    ensures a * d < b * d
  {
  }

  /** The hats form a partition of unity on the whole rate domain. */
  lemma PartitionOfUnity(p: Params, r: real)
    requires Valid(p) && p.rMin <= r <= p.rMax
    ensures HatSum(p, r, p.intervals + 1) == 1.0
  {
    var j := Cell(p, r);
    PartialSums(p, j, r, p.intervals + 1);
    OnCell(p, j, r);
    RateNext(p, j);
    Complement(Rate(p, j), Rate(p, j + 1), r, Dr(p));
  }

  /** Across a cell of width d the falling and the rising hat add to one. */
  lemma Complement(a: real, b: real, r: real, d: real)
    requires d > 0.0 && b == a + d
    ensures (b - r) / d + (r - a) / d == 1.0
  {
    assert (b - r) / d + (r - a) / d == (b - a) / d;
  }

  /** A falling line (b - x) / d changes by -1/d per unit. */
  lemma Falling(b: real, r: real, s: real, d: real)
    requires d > 0.0
    ensures (b - s) / d - (b - r) / d == (-1.0 / d) * (s - r)
  {
  }

  /** A rising line (x - a) / d changes by 1/d per unit. */
  lemma Rising(a: real, r: real, s: real, d: real)
    requires d > 0.0
    ensures (s - a) / d - (r - a) / d == (1.0 / d) * (s - r)
  {
  }

  /** Inside a cell the scheme's slope is the derivative of the hat: the
      hat changes by exactly the slope times the distance. */
  lemma Slope(p: Params, i: nat, j: nat, r: real, s: real)
    requires Valid(p) && i <= p.intervals && j < p.intervals
    requires Rate(p, j) < r < Rate(p, j + 1) && Rate(p, j) < s < Rate(p, j + 1)
    ensures Phi(p, i, s) - Phi(p, i, r) == DPhi(p, i, r) * (s - r)
  {
    if i == j {
      FallingHat(p, i, r, s);
    } else if i == j + 1 {
      RisingHat(p, i, r, s);
    } else {
      FlatHat(p, i, j, r, s);
    }
  }

  /** Every other hat is flat zero inside cell j, and so is its slope. */
  lemma FlatHat(p: Params, i: nat, j: nat, r: real, s: real)
    requires Valid(p) && i <= p.intervals && j < p.intervals && i != j && i != j + 1
    requires Rate(p, j) < r < Rate(p, j + 1) && Rate(p, j) < s < Rate(p, j + 1)
    ensures Phi(p, i, s) == 0.0 && Phi(p, i, r) == 0.0 && DPhi(p, i, r) == 0.0
  {
    OffCell(p, i, j, r);
    OffCell(p, i, j, s);
  }

  /** Hat j falls across cell j at the scheme's slope. */
  lemma FallingHat(p: Params, j: nat, r: real, s: real)
    requires Valid(p) && j < p.intervals
    requires Rate(p, j) < r < Rate(p, j + 1) && Rate(p, j) < s < Rate(p, j + 1)
    ensures Phi(p, j, s) - Phi(p, j, r) == DPhi(p, j, r) * (s - r)
  {
    FallingSide(p, j, r);
    FallingSide(p, j, s);
    Falling(Rate(p, j + 1), r, s, Dr(p));
  }

  /** Inside cell j, hat j is (r_{j+1} - r) / dr with slope -1/dr. */
  lemma FallingSide(p: Params, j: nat, r: real)
    requires Valid(p) && j < p.intervals && Rate(p, j) < r < Rate(p, j + 1)
    ensures Phi(p, j, r) == (Rate(p, j + 1) - r) / Dr(p)
    ensures DPhi(p, j, r) == -1.0 / Dr(p)
  {
    if 0 < j {
      RateNext(p, j - 1);
    }
  }

  /** Hat i rises across cell i - 1 at the scheme's slope. */
  lemma RisingHat(p: Params, i: nat, r: real, s: real)
    requires Valid(p) && 0 < i <= p.intervals
    requires Rate(p, i - 1) < r < Rate(p, i) && Rate(p, i - 1) < s < Rate(p, i)
    ensures Phi(p, i, s) - Phi(p, i, r) == DPhi(p, i, r) * (s - r)
  {
    RisingSide(p, i, r);
    RisingSide(p, i, s);
    Rising(Rate(p, i - 1), r, s, Dr(p));
  }

  /** Inside cell i - 1, hat i is (r - r_{i-1}) / dr with slope 1/dr. */
  lemma RisingSide(p: Params, i: nat, r: real)
    requires Valid(p) && 0 < i <= p.intervals && Rate(p, i - 1) < r < Rate(p, i)
    ensures Phi(p, i, r) == (r - Rate(p, i - 1)) / Dr(p)
    ensures DPhi(p, i, r) == 1.0 / Dr(p)
  {
    if i < p.intervals {
      RateNext(p, i);
    }
  }
}
