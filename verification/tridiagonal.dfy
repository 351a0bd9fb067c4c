/** The tridiagonal (Thomas) solver shared by the implicit and Crank-Nicolson
    schemes: forward elimination, then back substitution, with no pivoting. */
module Tridiagonal {
  import opened Outcomes

  /** Sub-diagonal a, diagonal b, super-diagonal c and right-hand side d of
      one system. Entries a[0] and c[n-1] lie outside the matrix. */
  datatype System = System(a: seq<real>, b: seq<real>, c: seq<real>, d: seq<real>)

  /** Four sequences of one common length n >= 2 (the solver indexes c[0]
      and the (n-2)-th modified coefficient, so it needs two unknowns). */
  predicate WellFormed(s: System) {
    |s.b| >= 2 && |s.a| == |s.b| && |s.c| == |s.b| && |s.d| == |s.b|
  }

  /** Left-hand side of row i applied to x. The first row has no
      sub-diagonal term and the last row no super-diagonal term. */
  function RowValue(s: System, x: seq<real>, i: nat): real
    requires WellFormed(s) && |x| == |s.b| && i < |s.b|
  {
    if i == 0 then s.b[0] * x[0] + s.c[0] * x[1]
    else if i == |s.b| - 1 then s.a[i] * x[i - 1] + s.b[i] * x[i]
    else s.a[i] * x[i - 1] + s.b[i] * x[i] + s.c[i] * x[i + 1]
  }

  /** x satisfies every row of the system. */
  predicate Solves(s: System, x: seq<real>)
    requires WellFormed(s)
  {
    |x| == |s.b| && forall i :: 0 <= i < |s.b| ==> RowValue(s, x, i) == s.d[i]
  }

  /** The determinant of the leading k-by-k block of the matrix, by the
      three-term (continuant) recurrence. The Thomas pivot of row i is
      Minor(i + 1) / Minor(i). */
  function Minor(s: System, k: nat): real
    requires WellFormed(s) && k <= |s.b|
  {
    if k == 0 then 1.0
    else if k == 1 then s.b[0]
    else s.b[k - 1] * Minor(s, k - 1) - s.a[k - 1] * s.c[k - 2] * Minor(s, k - 2)
  }

  /** Every leading block is non-singular, so no pivot is zero. */
  predicate Regular(s: System)
    requires WellFormed(s)
  {
    forall k :: 1 <= k <= |s.b| ==> Minor(s, k) != 0.0
  }

  /** The k-th leading block is the first singular one. */
  predicate FirstSingular(s: System, k: nat)
    requires WellFormed(s)
  {
    1 <= k <= |s.b| && Minor(s, k) == 0.0 && forall j :: 1 <= j < k ==> Minor(s, j) != 0.0
  }

  /** Elimination reached a zero pivot in the given row. */
  datatype Singular = ZeroPivot(row: nat)

  /** Each pivot b[i] - a[i] * cp[i-1] is the ratio of consecutive minors. */
  lemma PivotIsMinorRatio(s: System, i: nat, cpPrev: real)
    requires WellFormed(s) && 1 <= i < |s.b|
    requires cpPrev * Minor(s, i) == s.c[i - 1] * Minor(s, i - 1)
    ensures (s.b[i] - s.a[i] * cpPrev) * Minor(s, i) == Minor(s, i + 1)
  {
    calc {
      (s.b[i] - s.a[i] * cpPrev) * Minor(s, i);
      s.b[i] * Minor(s, i) - s.a[i] * (cpPrev * Minor(s, i));
      s.b[i] * Minor(s, i) - s.a[i] * (s.c[i - 1] * Minor(s, i - 1));
      s.b[i] * Minor(s, i) - s.a[i] * s.c[i - 1] * Minor(s, i - 1);
    }
  }

  /** Row j after elimination: the pivot b[j] - a[j] * cpPrev is non-zero
      and the modified coefficients satisfy pivot * cp = c[j] and
      pivot * dp = d[j] - a[j] * dpPrev. */
  predicate Eliminated(s: System, j: nat, cpPrev: real, dpPrev: real, cp: real, dp: real)
    requires WellFormed(s) && j < |s.b|
  {
    && s.b[j] - s.a[j] * cpPrev != 0.0
    && (s.b[j] - s.a[j] * cpPrev) * cp == s.c[j]
    && (s.b[j] - s.a[j] * cpPrev) * dp == s.d[j] - s.a[j] * dpPrev
  }

  /** Back substitution recovered xj from its successor. */
  predicate Substituted(cp: real, dp: real, xj: real, xNext: real) {
    xj == dp - cp * xNext
  }

  /** Dividing by a non-zero pivot yields its inverse relation. */
  lemma Quotient(num: real, den: real)
    requires den != 0.0
    ensures den * (num / den) == num
  {
  }

  /** The next modified super-diagonal coefficient keeps the minor relation. */
  lemma NextCpMinor(cp: real, den: real, c: real, m: real, mNext: real)
    requires den != 0.0 && cp == c / den && den * m == mNext
    ensures cp * mNext == c * m
  {
    calc {
      cp * mNext;
      cp * (den * m);
      (den * cp) * m;
      { Quotient(c, den); }
      c * m;
    }
  }

  /** One step of forward elimination on row i, with a non-zero pivot,
      establishes the row's elimination relations and carries the minor
      relation on to the next row. */
  lemma EliminationStep(s: System, i: nat, cpPrev: real, dpPrev: real)
    requires WellFormed(s) && 1 <= i < |s.b| - 1
    requires cpPrev * Minor(s, i) == s.c[i - 1] * Minor(s, i - 1)
    requires Minor(s, i) != 0.0
    requires s.b[i] - s.a[i] * cpPrev != 0.0
    ensures Minor(s, i + 1) != 0.0
    ensures var denom := s.b[i] - s.a[i] * cpPrev;
      && Eliminated(s, i, cpPrev, dpPrev, s.c[i] / denom, (s.d[i] - s.a[i] * dpPrev) / denom)
      && (s.c[i] / denom) * Minor(s, i + 1) == s.c[i] * Minor(s, i)
  {
    var denom := s.b[i] - s.a[i] * cpPrev;
    PivotIsMinorRatio(s, i, cpPrev);
    Quotient(s.c[i], denom);
    Quotient(s.d[i] - s.a[i] * dpPrev, denom);
    NextCpMinor(s.c[i] / denom, denom, s.c[i], Minor(s, i), Minor(s, i + 1));
    ProductNonzero(denom, Minor(s, i));
  }

  /** Elimination of the last row, with a non-zero pivot. */
  lemma LastEliminationStep(s: System, cpPrev: real, dpPrev: real)
    requires WellFormed(s)
    requires cpPrev * Minor(s, |s.b| - 1) == s.c[|s.b| - 2] * Minor(s, |s.b| - 2)
    requires Minor(s, |s.b| - 1) != 0.0
    requires s.b[|s.b| - 1] - s.a[|s.b| - 1] * cpPrev != 0.0
    ensures Minor(s, |s.b|) != 0.0
    ensures var last := s.b[|s.b| - 1] - s.a[|s.b| - 1] * cpPrev;
      last * ((s.d[|s.b| - 1] - s.a[|s.b| - 1] * dpPrev) / last) == s.d[|s.b| - 1] - s.a[|s.b| - 1] * dpPrev
  {
    var n := |s.b|;
    var last := s.b[n - 1] - s.a[n - 1] * cpPrev;
    PivotIsMinorRatio(s, n - 1, cpPrev);
    Quotient(s.d[n - 1] - s.a[n - 1] * dpPrev, last);
    ProductNonzero(last, Minor(s, n - 1));
  }

  lemma ProductNonzero(x: real, y: real)
    requires x != 0.0 && y != 0.0
    ensures x * y != 0.0
  {
  }

  /** The first row holds once b0 cp0 = c0, b0 dp0 = d0 and x0 = dp0 - cp0 x1. */
  lemma FirstRowHolds(s: System, cp: real, dp: real, x: seq<real>)
    requires WellFormed(s) && |x| == |s.b|
    requires s.b[0] * cp == s.c[0] && s.b[0] * dp == s.d[0] && x[0] == dp - cp * x[1]
    ensures RowValue(s, x, 0) == s.d[0]
  {
    var b, c, x0, x1 := s.b[0], s.c[0], x[0], x[1];
    calc {
      b * x0 + c * x1;
      b * (dp - cp * x1) + c * x1;
      b * dp - (b * cp) * x1 + c * x1;
    }
  }

  /** An interior row holds once it is eliminated against the previous one
      and both unknowns are recovered by back substitution. */
  lemma InteriorRowHolds(s: System, j: nat, cpPrev: real, dpPrev: real, cp: real, dp: real, x: seq<real>)
    requires WellFormed(s) && |x| == |s.b| && 0 < j < |s.b| - 1
    requires Eliminated(s, j, cpPrev, dpPrev, cp, dp)
    requires x[j - 1] == dpPrev - cpPrev * x[j] && x[j] == dp - cp * x[j + 1]
    ensures RowValue(s, x, j) == s.d[j]
  {
    var a, b, c, d := s.a[j], s.b[j], s.c[j], s.d[j];
    var xPrev, xj, xNext := x[j - 1], x[j], x[j + 1];
    var piv := b - a * cpPrev;
    calc {
      a * xPrev + b * xj + c * xNext;
      a * (dpPrev - cpPrev * xj) + b * xj + c * xNext;
      a * dpPrev + piv * xj + c * xNext;
      a * dpPrev + piv * (dp - cp * xNext) + c * xNext;
      a * dpPrev + piv * dp - (piv * cp) * xNext + c * xNext;
      a * dpPrev + (d - a * dpPrev) - c * xNext + c * xNext;
    }
  }

  /** The last row holds once it is eliminated against the previous one. */
  lemma LastRowHolds(s: System, cpPrev: real, dpPrev: real, dp: real, x: seq<real>)
    requires WellFormed(s) && |x| == |s.b|
    requires (s.b[|s.b| - 1] - s.a[|s.b| - 1] * cpPrev) * dp == s.d[|s.b| - 1] - s.a[|s.b| - 1] * dpPrev
    requires x[|s.b| - 2] == dpPrev - cpPrev * x[|s.b| - 1] && x[|s.b| - 1] == dp
    ensures RowValue(s, x, |s.b| - 1) == s.d[|s.b| - 1]
  {
    var n := |s.b|;
    var a, b, d := s.a[n - 1], s.b[n - 1], s.d[n - 1];
    var xPrev, xl := x[n - 2], x[n - 1];
    var piv := b - a * cpPrev;
    calc {
      a * xPrev + b * xl;
      a * (dpPrev - cpPrev * xl) + b * xl;
      a * dpPrev + piv * xl;
      a * dpPrev + piv * dp;
    }
  }

  /** A zero Minor(k) after non-zero earlier ones is the first singular
      block, and the system is not regular. */
  lemma StuckAt(s: System, k: nat)
    requires WellFormed(s) && 1 <= k <= |s.b|
    requires forall j :: 1 <= j < k ==> Minor(s, j) != 0.0
    requires Minor(s, k) == 0.0
    ensures FirstSingular(s, k) && !Regular(s)
  {
  }

  /** A zero pivot in row i means the (i+1)-th leading block is the first
      singular one. */
  lemma ZeroPivotSingular(s: System, i: nat, cpPrev: real)
    requires WellFormed(s) && 1 <= i < |s.b|
    requires cpPrev * Minor(s, i) == s.c[i - 1] * Minor(s, i - 1)
    requires forall j :: 1 <= j <= i ==> Minor(s, j) != 0.0
    requires s.b[i] - s.a[i] * cpPrev == 0.0
    ensures FirstSingular(s, i + 1) && !Regular(s)
  {
    PivotIsMinorRatio(s, i, cpPrev);
    StuckAt(s, i + 1);
  }

  /** Non-zero minors up to the last one make the system regular. */
  lemma AllPivotsNonzero(s: System)
    requires WellFormed(s)
    requires forall j :: 1 <= j < |s.b| ==> Minor(s, j) != 0.0
    requires Minor(s, |s.b|) != 0.0
    ensures Regular(s)
  {
  }

  /** cp and dp are the modified super-diagonal and right-hand side that
      forward elimination produces for s. */
  predicate Elimination(s: System, cp: seq<real>, dp: seq<real>)
    requires WellFormed(s)
  {
    var n := |s.b|;
    && |cp| == n - 1 && |dp| == n
    && s.b[0] != 0.0 && s.b[0] * cp[0] == s.c[0] && s.b[0] * dp[0] == s.d[0]
    && (forall j :: 1 <= j < n - 1 ==> Eliminated(s, j, cp[j - 1], dp[j - 1], cp[j], dp[j]))
    && s.b[n - 1] - s.a[n - 1] * cp[n - 2] != 0.0
    && (s.b[n - 1] - s.a[n - 1] * cp[n - 2]) * dp[n - 1] == s.d[n - 1] - s.a[n - 1] * dp[n - 2]
  }

  /** The forward sweep has normalised rows 0 .. |cp|-1: their minors are
      non-zero, the last modified coefficient keeps the minor relation, and
      every row so far satisfies its elimination relations. */
  predicate Swept(s: System, cp: seq<real>, dp: seq<real>)
    requires WellFormed(s)
  {
    var i := |cp|;
    && 1 <= i <= |s.b| - 1 && |dp| == i
    && (forall k :: 1 <= k <= i ==> Minor(s, k) != 0.0)
    && cp[i - 1] * Minor(s, i) == s.c[i - 1] * Minor(s, i - 1)
    && s.b[0] != 0.0 && s.b[0] * cp[0] == s.c[0] && s.b[0] * dp[0] == s.d[0]
    && (forall j :: 1 <= j < i ==> Eliminated(s, j, cp[j - 1], dp[j - 1], cp[j], dp[j]))
  }

  /** The pivot of row i = |cp|, given the modified coefficients so far. */
  function Pivot(s: System, cp: seq<real>): real
    requires WellFormed(s) && 1 <= |cp| < |s.b|
  {
    s.b[|cp|] - s.a[|cp|] * cp[|cp| - 1]
  }

  /** The modified super-diagonal coefficient of row |cp|. */
  function NextCp(s: System, cp: seq<real>): real
    requires WellFormed(s) && 1 <= |cp| < |s.b| && Pivot(s, cp) != 0.0
  {
    s.c[|cp|] / Pivot(s, cp)
  }

  /** The modified right-hand side of row |cp|. */
  function NextDp(s: System, cp: seq<real>, dp: seq<real>): real
    requires WellFormed(s) && 1 <= |cp| < |s.b| && |dp| == |cp| && Pivot(s, cp) != 0.0
  {
    (s.d[|cp|] - s.a[|cp|] * dp[|cp| - 1]) / Pivot(s, cp)
  }

  /** Normalising the next row by a non-zero pivot extends the sweep. */
  lemma SweepStep(s: System, cp: seq<real>, dp: seq<real>)
    requires WellFormed(s) && Swept(s, cp, dp) && |cp| < |s.b| - 1
    requires Pivot(s, cp) != 0.0
    ensures Swept(s, cp + [NextCp(s, cp)], dp + [NextDp(s, cp, dp)])
  {
    var i := |cp|;
    EliminationStep(s, i, cp[i - 1], dp[i - 1]);
    var cp', dp' := cp + [NextCp(s, cp)], dp + [NextDp(s, cp, dp)];
    forall j | 1 <= j < i
      ensures Eliminated(s, j, cp'[j - 1], dp'[j - 1], cp'[j], dp'[j])
    {
      assert Eliminated(s, j, cp[j - 1], dp[j - 1], cp[j], dp[j]);
    }
  }

  /** Forward elimination of rows 0 .. n-2, stopping at the first zero
      pivot. */
  method Sweep(s: System) returns (r: Result<(seq<real>, seq<real>), Singular>)
    requires WellFormed(s)
    ensures r.Success? ==> |r.value.0| == |s.b| - 1 && Swept(s, r.value.0, r.value.1)
    ensures r.Failure? ==> FirstSingular(s, r.error.row + 1) && !Regular(s)
  {
    var n := |s.b|;
    if s.b[0] == 0.0 {
      StuckAt(s, 1);
      return Failure(ZeroPivot(0));
    }
    Quotient(s.c[0], s.b[0]);
    Quotient(s.d[0], s.b[0]);
    var cp := [s.c[0] / s.b[0]];
    var dp := [s.d[0] / s.b[0]];
    var i := 1;
    while i < n - 1
      invariant i == |cp| && Swept(s, cp, dp)
    {
      if Pivot(s, cp) == 0.0 {
        ZeroPivotSingular(s, i, cp[i - 1]);
        return Failure(ZeroPivot(i));
      }
      SweepStep(s, cp, dp);
      cp, dp := cp + [NextCp(s, cp)], dp + [NextDp(s, cp, dp)];
      i := i + 1;
    }
    return Success((cp, dp));
  }

  /** Forward elimination: normalise each row by its pivot, stopping at the
      first zero pivot. */
  method Eliminate(s: System) returns (r: Result<(seq<real>, seq<real>), Singular>)
    requires WellFormed(s)
    ensures r.Success? <==> Regular(s)
    ensures r.Success? ==> Elimination(s, r.value.0, r.value.1)
    ensures r.Failure? ==> FirstSingular(s, r.error.row + 1)
  {
    var n := |s.b|;
    var swept :- Sweep(s);
    var (cp, dp) := swept;
    var last := s.b[n - 1] - s.a[n - 1] * cp[n - 2];
    if last == 0.0 {
      ZeroPivotSingular(s, n - 1, cp[n - 2]);
      return Failure(ZeroPivot(n - 1));
    }
    LastEliminationStep(s, cp[n - 2], dp[n - 2]);
    AllPivotsNonzero(s);
    var dpAll := dp + [(s.d[n - 1] - s.a[n - 1] * dp[n - 2]) / last];
    return Success((cp, dpAll));
  }

  /** Back substitution: x[n-1] = dp[n-1], then x[i] = dp[i] - cp[i] x[i+1]
      for i = n-2 down to 0. */
  method BackSubstitute(cp: seq<real>, dp: seq<real>) returns (x: seq<real>)
    requires |dp| >= 1 && |cp| == |dp| - 1
    ensures |x| == |dp|
    ensures x[|dp| - 1] == dp[|dp| - 1]
    ensures forall j :: 0 <= j < |dp| - 1 ==> Substituted(cp[j], dp[j], x[j], x[j + 1])
  {
    var n := |dp|;
    var xs := new real[n];
    xs[n - 1] := dp[n - 1];
    var k := n - 2;
    while k >= 0
      invariant -1 <= k <= n - 2
      invariant xs[n - 1] == dp[n - 1]
      invariant forall j :: k < j < n - 1 ==> Substituted(cp[j], dp[j], xs[j], xs[j + 1])
    {
      xs[k] := dp[k] - cp[k] * xs[k + 1];
      k := k - 1;
    }
    x := xs[..];
  }

  /** A product with a non-zero factor vanishes only when the other does. */
  lemma CancelNonzero(x: real, y: real)
    requires x != 0.0 && x * y == 0.0
    ensures y == 0.0
  {
  }

  /** Any solution meets the first row's substitution relation. */
  lemma ForcedFirst(s: System, cp: real, dp: real, y: seq<real>)
    requires WellFormed(s) && |y| == |s.b|
    requires s.b[0] != 0.0 && s.b[0] * cp == s.c[0] && s.b[0] * dp == s.d[0]
    requires RowValue(s, y, 0) == s.d[0]
    ensures Substituted(cp, dp, y[0], y[1])
  {
    var b, y0, y1 := s.b[0], y[0], y[1];
    assert b * (y0 - dp + cp * y1) == b * y0 + (b * cp) * y1 - b * dp;
    CancelNonzero(b, y0 - dp + cp * y1);
  }

  /** Any solution meets an interior row's substitution relation once it
      meets the previous row's. */
  lemma ForcedInterior(s: System, j: nat, cpPrev: real, dpPrev: real, cp: real, dp: real, y: seq<real>)
    requires WellFormed(s) && |y| == |s.b| && 0 < j < |s.b| - 1
    requires Eliminated(s, j, cpPrev, dpPrev, cp, dp)
    requires Substituted(cpPrev, dpPrev, y[j - 1], y[j])
    requires RowValue(s, y, j) == s.d[j]
    ensures Substituted(cp, dp, y[j], y[j + 1])
  {
    var a, b, c, d := s.a[j], s.b[j], s.c[j], s.d[j];
    var yPrev, yj, yNext := y[j - 1], y[j], y[j + 1];
    var piv := b - a * cpPrev;
    calc {
      piv * (yj - dp + cp * yNext);
      piv * yj - piv * dp + (piv * cp) * yNext;
      piv * yj - (d - a * dpPrev) + c * yNext;
      a * (dpPrev - cpPrev * yj) + b * yj + c * yNext - d;
      a * yPrev + b * yj + c * yNext - d;
      0.0;
    }
    CancelNonzero(piv, yj - dp + cp * yNext);
  }

  /** Any solution ends in dp[n-1] once it meets the substitution relation
      of row n-2. */
  lemma ForcedLast(s: System, cpPrev: real, dpPrev: real, dp: real, y: seq<real>)
    requires WellFormed(s) && |y| == |s.b|
    requires s.b[|s.b| - 1] - s.a[|s.b| - 1] * cpPrev != 0.0
    requires (s.b[|s.b| - 1] - s.a[|s.b| - 1] * cpPrev) * dp == s.d[|s.b| - 1] - s.a[|s.b| - 1] * dpPrev
    requires Substituted(cpPrev, dpPrev, y[|s.b| - 2], y[|s.b| - 1])
    requires RowValue(s, y, |s.b| - 1) == s.d[|s.b| - 1]
    ensures y[|s.b| - 1] == dp
  {
    var n := |s.b|;
    var a, b, d := s.a[n - 1], s.b[n - 1], s.d[n - 1];
    var yPrev, yl := y[n - 2], y[n - 1];
    var piv := b - a * cpPrev;
    calc {
      piv * (yl - dp);
      piv * yl - (d - a * dpPrev);
      a * (dpPrev - cpPrev * yl) + b * yl - d;
      a * yPrev + b * yl - d;
      0.0;
    }
    CancelNonzero(piv, yl - dp);
  }

  /** Rows 0 .. j of any solution meet the substitution relations that
      forward elimination produced. */
  lemma {:induction false} ForcedUpTo(s: System, cp: seq<real>, dp: seq<real>, y: seq<real>, j: nat)
    requires WellFormed(s) && Elimination(s, cp, dp) && Solves(s, y) && j < |s.b| - 1
    ensures Substituted(cp[j], dp[j], y[j], y[j + 1])
  {
    if j == 0 {
      ForcedFirst(s, cp[0], dp[0], y);
    } else {
      ForcedUpTo(s, cp, dp, y, j - 1);
      ForcedInterior(s, j, cp[j - 1], dp[j - 1], cp[j], dp[j], y);
    }
  }

  /** Two vectors that both satisfy every substitution relation agree from
      position k on. */
  lemma {:induction false} BackSubstitutionDetermined(cp: seq<real>, dp: seq<real>, x: seq<real>, y: seq<real>, k: nat)
    requires |dp| >= 1 && |cp| == |dp| - 1 && |x| == |dp| && |y| == |dp| && k < |dp|
    requires x[|dp| - 1] == dp[|dp| - 1] && y[|dp| - 1] == dp[|dp| - 1]
    requires forall j :: 0 <= j < |dp| - 1 ==> Substituted(cp[j], dp[j], x[j], x[j + 1])
    requires forall j :: 0 <= j < |dp| - 1 ==> Substituted(cp[j], dp[j], y[j], y[j + 1])
    ensures x[k] == y[k]
    decreases |dp| - k
  {
    if k < |dp| - 1 {
      BackSubstitutionDetermined(cp, dp, x, y, k + 1);
      assert Substituted(cp[k], dp[k], x[k], x[k + 1]);
      assert Substituted(cp[k], dp[k], y[k], y[k + 1]);
    }
  }

  /** x satisfies the back-substitution relations of cp and dp. */
  predicate BackSubstituted(cp: seq<real>, dp: seq<real>, x: seq<real>)
    requires |dp| >= 1 && |cp| == |dp| - 1
  {
    && |x| == |dp| && x[|dp| - 1] == dp[|dp| - 1]
    && forall j :: 0 <= j < |dp| - 1 ==> Substituted(cp[j], dp[j], x[j], x[j + 1])
  }

  /** Back substitution over a completed elimination solves the system. */
  lemma SubstitutionSolves(s: System, cp: seq<real>, dp: seq<real>, x: seq<real>)
    requires WellFormed(s) && Elimination(s, cp, dp) && BackSubstituted(cp, dp, x)
    ensures Solves(s, x)
  {
    forall row | 0 <= row < |s.b|
      ensures RowValue(s, x, row) == s.d[row]
    {
      SubstitutedRow(s, cp, dp, x, row);
    }
  }

  /** One row of the system holds for the back-substituted vector. */
  lemma SubstitutedRow(s: System, cp: seq<real>, dp: seq<real>, x: seq<real>, row: nat)
    requires WellFormed(s) && Elimination(s, cp, dp) && BackSubstituted(cp, dp, x) && row < |s.b|
    ensures RowValue(s, x, row) == s.d[row]
  {
    var n := |s.b|;
    if row == 0 {
      assert Substituted(cp[0], dp[0], x[0], x[1]);
      FirstRowHolds(s, cp[0], dp[0], x);
    } else if row == n - 1 {
      assert Substituted(cp[row - 1], dp[row - 1], x[row - 1], x[row]);
      LastRowHolds(s, cp[row - 1], dp[row - 1], dp[row], x);
    } else {
      assert Substituted(cp[row - 1], dp[row - 1], x[row - 1], x[row]);
      assert Substituted(cp[row], dp[row], x[row], x[row + 1]);
      assert Eliminated(s, row, cp[row - 1], dp[row - 1], cp[row], dp[row]);
      InteriorRowHolds(s, row, cp[row - 1], dp[row - 1], cp[row], dp[row], x);
    }
  }

  /** Every solution of the system is the back-substituted vector. */
  lemma SubstitutionUnique(s: System, cp: seq<real>, dp: seq<real>, x: seq<real>)
    requires WellFormed(s) && Elimination(s, cp, dp) && BackSubstituted(cp, dp, x)
    ensures forall y :: Solves(s, y) ==> y == x
  {
    forall y | Solves(s, y)
      ensures y == x
    {
      SolutionSubstituted(s, cp, dp, y);
      SubstitutedUnique(cp, dp, x, y);
    }
  }

  /** Every solution satisfies the back-substitution relations. */
  lemma SolutionSubstituted(s: System, cp: seq<real>, dp: seq<real>, y: seq<real>)
    requires WellFormed(s) && Elimination(s, cp, dp) && Solves(s, y)
    ensures BackSubstituted(cp, dp, y)
  {
    var n := |s.b|;
    forall j | 0 <= j < n - 1
      ensures Substituted(cp[j], dp[j], y[j], y[j + 1])
    {
      ForcedUpTo(s, cp, dp, y, j);
    }
    ForcedUpTo(s, cp, dp, y, n - 2);
    ForcedLast(s, cp[n - 2], dp[n - 2], dp[n - 1], y);
  }

  /** The back-substitution relations have only one solution. */
  lemma SubstitutedUnique(cp: seq<real>, dp: seq<real>, x: seq<real>, y: seq<real>)
    requires |dp| >= 1 && |cp| == |dp| - 1
    requires BackSubstituted(cp, dp, x) && BackSubstituted(cp, dp, y)
    ensures x == y
  {
    forall k | 0 <= k < |dp|
      ensures x[k] == y[k]
    {
      BackSubstitutionDetermined(cp, dp, x, y, k);
    }
  }

  /** Solve s by forward elimination and back substitution. A zero pivot,
      where the floating-point original would divide by zero, is reported
      as ZeroPivot of its row. */
  method Thomas(s: System) returns (r: Result<seq<real>, Singular>)
    requires WellFormed(s)
    ensures r.Success? <==> Regular(s)
    ensures r.Success? ==> Solves(s, r.value)
    ensures r.Success? ==> forall y :: Solves(s, y) ==> y == r.value
    ensures r.Failure? ==> FirstSingular(s, r.error.row + 1)
  {
    var n := |s.b|;
    var e := Eliminate(s);
    if e.Failure? {
      return Failure(e.error);
    }
    var (cp, dp) := e.value;
    var x := BackSubstitute(cp, dp);
    SubstitutionSolves(s, cp, dp, x);
    SubstitutionUnique(s, cp, dp, x);
    return Success(x);
  }

  /** s and t differ at most in the two entries outside the matrix, a[0]
      and c[n-1]. */
  predicate SameExceptCorners(s: System, t: System)
    requires WellFormed(s) && WellFormed(t)
  {
    var n := |s.b|;
    && |t.b| == n && t.b == s.b && t.d == s.d
    && (forall i :: 1 <= i < n ==> t.a[i] == s.a[i])
    && (forall i :: 0 <= i < n - 1 ==> t.c[i] == s.c[i])
  }

  /** The leading minors never read the corner entries. */
  lemma {:induction false} MinorIgnoresCorners(s: System, t: System, k: nat)
    requires WellFormed(s) && WellFormed(t) && SameExceptCorners(s, t) && k <= |s.b|
    ensures Minor(s, k) == Minor(t, k)
  {
    if k >= 2 {
      MinorIgnoresCorners(s, t, k - 1);
      MinorIgnoresCorners(s, t, k - 2);
    }
  }

  /** Whatever the corner entries hold, the system is regular, solved and
      singular for exactly the same data: the zero a[0] and c[n-1] that the
      schemes store there are never read. */
  lemma CornersIgnored(s: System, t: System)
    requires WellFormed(s) && WellFormed(t) && SameExceptCorners(s, t)
    ensures Regular(s) <==> Regular(t)
    ensures forall k :: FirstSingular(s, k) <==> FirstSingular(t, k)
    ensures forall x :: Solves(s, x) <==> Solves(t, x)
  {
    forall k | 0 <= k <= |s.b|
      ensures Minor(s, k) == Minor(t, k)
    {
      MinorIgnoresCorners(s, t, k);
    }
    forall x | |x| == |s.b|
      ensures forall i :: 0 <= i < |s.b| ==> RowValue(s, x, i) == RowValue(t, x, i)
    {
    }
  }
}
