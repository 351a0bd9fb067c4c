/** Time marching for the two implicit schemes: starting from the payoff,
    each level solves its tridiagonal system with the Thomas solver and
    frames the interior solution with the closed-form edge values; the
    finished field is returned in calendar order. */
module Marching {
  import opened Outcomes
  import opened Mesh
  import opened Tridiagonal
  import opened Reduction
  import Implicit
  import CrankNicolson

  /** The two schemes that advance a level through a tridiagonal solve. */
  datatype Scheme = ImplicitEuler | CrankNicolsonScheme

  /** Elimination broke down at the given pseudo-time level (counted from
      the payoff) in the given row of that level's system. */
  datatype Breakdown = Breakdown(level: nat, row: nat)

  /** The tridiagonal system of the step from level n. */
  function StepSystem(sc: Scheme, p: Params, bc: Price, prev: Row, n: nat): (s: System)
    requires Valid(p) && p.intervals >= 3 && |prev| == p.intervals + 1
    ensures WellFormed(s) && |s.b| == p.intervals - 1
  {
    match sc
    case ImplicitEuler => Implicit.StepSystem(p, bc, prev, n)
    case CrankNicolsonScheme => CrankNicolson.StepSystem(p, bc, prev, n)
  }

  /** The scheme's equations at every interior node of next. */
  predicate StepEquations(sc: Scheme, p: Params, prev: Row, next: Row)
    requires Valid(p)
  {
    match sc
    case ImplicitEuler => Implicit.Equations(p, prev, next)
    case CrankNicolsonScheme => CrankNicolson.Equations(p, prev, next)
  }

  /** x solves the step's system exactly when the row framed by the new
      edge values satisfies the scheme's equations. */
  lemma SystemMeaning(sc: Scheme, p: Params, bc: Price, prev: Row, n: nat, x: seq<real>)
    requires Valid(p) && p.intervals >= 3 && |prev| == p.intervals + 1 && |x| == p.intervals - 1
    ensures Solves(StepSystem(sc, p, bc, prev, n), x) <==> StepEquations(sc, p, prev, Level(p, bc, n + 1, x))
  {
    match sc
    case ImplicitEuler => Implicit.SystemMeaning(p, bc, prev, n, x);
    case CrankNicolsonScheme => CrankNicolson.SystemMeaning(p, bc, prev, n, x);
  }

  /** next is a step of the scheme from level n: a full row carrying the
      closed-form price on both edges and satisfying the equations. */
  predicate IsStep(sc: Scheme, p: Params, bc: Price, prev: Row, next: Row, n: nat)
    requires Valid(p)
  {
    && |prev| == p.intervals + 1 && |next| == p.intervals + 1
    && OnBoundary(p, bc, next, n + 1)
    && StepEquations(sc, p, prev, next)
  }

  /** A full row is its edge values framing its interior. */
  lemma FramedRow(p: Params, bc: Price, row: Row, n: nat)
    requires Valid(p) && |row| == p.intervals + 1 && OnBoundary(p, bc, row, n)
    ensures row == Level(p, bc, n, Interior(row))
  {
    var q := Level(p, bc, n, Interior(row));
    assert forall i :: 0 <= i < |row| ==> row[i] == q[i];
  }

  /** One step from level n: solve the system, then frame the interior
      solution with the closed-form edge values of level n + 1. The step
      succeeds exactly when the system is regular, and its row is then the
      only step from prev. */
  method Step(sc: Scheme, p: Params, bc: Price, prev: Row, n: nat) returns (r: Result<Row, Singular>)
    requires Valid(p) && p.intervals >= 3 && |prev| == p.intervals + 1
    ensures r.Success? <==> Regular(StepSystem(sc, p, bc, prev, n))
    ensures r.Success? ==> IsStep(sc, p, bc, prev, r.value, n)
    ensures r.Success? ==> forall next :: IsStep(sc, p, bc, prev, next, n) ==> next == r.value
    ensures r.Failure? ==> FirstSingular(StepSystem(sc, p, bc, prev, n), r.error.row + 1)
  {
    var s := StepSystem(sc, p, bc, prev, n);
    var x :- Thomas(s);
    var next := Level(p, bc, n + 1, x);
    SystemMeaning(sc, p, bc, prev, n, x);
    forall other | IsStep(sc, p, bc, prev, other, n)
      ensures other == next
    {
      var y := Interior(other);
      FramedRow(p, bc, other, n + 1);
      SystemMeaning(sc, p, bc, prev, n, y);
      assert y == x;
    }
    return Success(next);
  }

  /** Row k + 1 of h is a step from row k. */
  predicate StepAt(sc: Scheme, p: Params, bc: Price, h: Field, k: nat)
    requires Valid(p) && k + 1 < |h|
  {
    IsStep(sc, p, bc, h[k], h[k + 1], k)
  }

  /** h holds the levels 0 .. n in pseudo-time order: the payoff, then one
      step after another. */
  predicate IsHistory(sc: Scheme, p: Params, bc: Price, h: Field, n: nat)
    requires Valid(p)
  {
    && |h| == n + 1
    && h[0] == Ones(p.intervals + 1)
    && forall k :: 0 <= k < n ==> StepAt(sc, p, bc, h, k)
  }

  /** h is the only history of n steps. */
  ghost predicate Unique(sc: Scheme, p: Params, bc: Price, h: Field, n: nat)
    requires Valid(p)
  {
    forall g :: IsHistory(sc, p, bc, g, n) ==> g == h
  }

  /** A history of n + 1 steps extends its first n + 1 rows. */
  lemma HistoryPrefix(sc: Scheme, p: Params, bc: Price, h: Field, n: nat)
    requires Valid(p) && IsHistory(sc, p, bc, h, n + 1)
    ensures IsHistory(sc, p, bc, h[..n + 1], n)
  {
    var g := h[..n + 1];
    forall k | 0 <= k < n
      ensures StepAt(sc, p, bc, g, k)
    {
      assert StepAt(sc, p, bc, h, k);
    }
  }

  /** Elimination fails in the system of the step after the last row of
      the history h. */
  predicate BrokenAt(sc: Scheme, p: Params, bc: Price, h: Field, b: Breakdown)
    requires Valid(p) && p.intervals >= 3
  {
    && IsHistory(sc, p, bc, h, b.level)
    && |h[b.level]| == p.intervals + 1
    && FirstSingular(StepSystem(sc, p, bc, h[b.level], b.level), b.row + 1)
  }

  /** A history of n steps whose next system is singular at row + 1
      breaks down there. */
  lemma Broken(sc: Scheme, p: Params, bc: Price, h: Field, n: nat, row: nat)
    requires Valid(p) && p.intervals >= 3 && IsHistory(sc, p, bc, h, n) && |h[n]| == p.intervals + 1
    requires FirstSingular(StepSystem(sc, p, bc, h[n], n), row + 1)
    ensures BrokenAt(sc, p, bc, h, Breakdown(n, row))
  {
  }

  /** Appending the only step from its last row to the only history of n
      steps gives the only history of n + 1 steps. */
  lemma Extend(sc: Scheme, p: Params, bc: Price, h: Field, n: nat, next: Row)
    requires Valid(p) && IsHistory(sc, p, bc, h, n) && Unique(sc, p, bc, h, n)
    requires IsStep(sc, p, bc, h[n], next, n)
    requires forall other :: IsStep(sc, p, bc, h[n], other, n) ==> other == next
    ensures IsHistory(sc, p, bc, h + [next], n + 1)
    ensures Unique(sc, p, bc, h + [next], n + 1)
  {
    var h' := h + [next];
    assert h'[..n + 1] == h;
    forall k | 0 <= k < n + 1
      ensures StepAt(sc, p, bc, h', k)
    {
      if k < n {
        assert StepAt(sc, p, bc, h, k);
      }
    }
    var m := n + 1;
    forall g | IsHistory(sc, p, bc, g, m)
      ensures g == h'
    {
      HistoryPrefix(sc, p, bc, g, n);
      assert StepAt(sc, p, bc, g, n);
      assert g == g[..n + 1] + [g[n + 1]];
    }
  }

  /** Advance the only history of n steps by one step, or report where
      the step's elimination breaks down. */
  method Advance(sc: Scheme, p: Params, bc: Price, h: Field, n: nat) returns (r: Result<Field, Breakdown>)
    requires Valid(p) && p.intervals >= 3
    requires IsHistory(sc, p, bc, h, n) && |h[n]| == p.intervals + 1 && Unique(sc, p, bc, h, n)
    ensures r.Success? ==> IsHistory(sc, p, bc, r.value, n + 1) && |r.value[n + 1]| == p.intervals + 1
    ensures r.Success? ==> Unique(sc, p, bc, r.value, n + 1)
    ensures r.Failure? ==> r.error.level == n && BrokenAt(sc, p, bc, h, r.error)
  {
    var step := Step(sc, p, bc, h[n], n);
    if step.Failure? {
      Broken(sc, p, bc, h, n, step.error.row);
      return Failure(Breakdown(n, step.error.row));
    }
    Extend(sc, p, bc, h, n, step.value);
    return Success(h + [step.value]);
  }

  /** The only history of N steps, reversed, is the only field whose
      reversal is a history. */
  lemma Finished(sc: Scheme, p: Params, bc: Price, h: Field)
    requires Valid(p) && IsHistory(sc, p, bc, h, p.steps) && Unique(sc, p, bc, h, p.steps)
    ensures |Reverse(h)| == p.steps + 1 && IsHistory(sc, p, bc, Reverse(Reverse(h)), p.steps)
    ensures forall g :: IsHistory(sc, p, bc, g, p.steps) ==> Reverse(g) == Reverse(h)
  {
    ReverseReverse(h);
  }

  /** March all N levels. On success the field is returned in calendar
      order (the payoff is its last row), its pseudo-time reversal is a
      history, and it is the only one; on failure the level and row of the
      first zero pivot are reported. */
  method March(sc: Scheme, p: Params, bc: Price) returns (r: Result<Field, Breakdown>)
    requires Valid(p) && p.intervals >= 3
    ensures r.Success? ==> |r.value| == p.steps + 1 && IsHistory(sc, p, bc, Reverse(r.value), p.steps)
    ensures r.Success? ==> forall h :: IsHistory(sc, p, bc, h, p.steps) ==> Reverse(h) == r.value
    ensures r.Failure? ==> r.error.level < p.steps
    ensures r.Failure? ==> exists h :: BrokenAt(sc, p, bc, h, r.error)
  {
    var h: Field := [Ones(p.intervals + 1)];
    var n := 0;
    while n < p.steps
      invariant n <= p.steps
      invariant IsHistory(sc, p, bc, h, n) && |h[n]| == p.intervals + 1
      invariant Unique(sc, p, bc, h, n)
    {
      var next := Advance(sc, p, bc, h, n);
      if next.Failure? {
        return Failure(next.error);
      }
      h, n := next.value, n + 1;
    }
    Finished(sc, p, bc, h);
    return Success(Reverse(h));
  }
}
