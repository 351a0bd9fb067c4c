# Vasicek bond pricing by finite differences and finite elements

This project models the numerical core of `Numerical_schemes.py`. That
file prices a zero-coupon bond under the Vasicek short-rate model. It
solves the pricing PDE in pseudo-time `tau = T - t` on a uniform rate grid
`r_0 .. r_M`, marching from the payoff `Q(0, r) = 1` over `N` steps. It
does this four ways:

- explicit Euler: forward differences in time, centred differences in rate;
- implicit (backward) Euler: one tridiagonal solve per step, by the Thomas
  algorithm;
- Crank-Nicolson: an implicit-side matrix and an explicit-side right-hand
  side, again solved by Thomas;
- a Galerkin finite-element method: hat functions, mass and stiffness
  matrices integrated over support overlaps, and Dirichlet edge values
  imposed by row elimination.

Each scheme writes the closed-form price on the two edge nodes of every
new level. Each reverses its pseudo-time history into calendar order. The
results are compared with the closed form by an entrywise absolute error.

The model works in exact real arithmetic. It is split into modules:

- `Mesh`: the run's parameters, the grids, edge values, time reversal.
- `Operator`: the discrete pricing operator.
- `LinAlg`: dense vectors and matrices.
- `Tridiagonal`: the Thomas algorithm.
- `Reduction`: three-point equations with known edge values.
- `Explicit`, `Implicit`, `CrankNicolson`: the three finite-difference
  schemes.
- `Marching`: the time loop of the two implicit schemes.
- `HatBasis`, `FemAssembly`, `FemDirichlet`: the finite-element method.
- `ErrorField`: the error against the closed form.
- `Outcomes`: a success/failure result type.

Each operation is tied to an independent property:

- For the Thomas solver, success holds exactly when the matrix is
  regular. The answer then solves the system, and it is the only solution.
- Each scheme's assembled system is solved by `x` exactly when the row
  framed by the edge values satisfies the scheme's own equation: forward
  Euler, backward Euler or the trapezoidal rule of the operator.
- The time loop returns the only field whose reversal is a history of
  steps.
- The hats are a partition of unity, have the Kronecker property, and
  carry the slope the scheme assigns them.
- The assembled finite-element matrices are tridiagonal.
- Dirichlet elimination neither loses nor adds a solution.

## Model

| member | source | states |
|---|---|---|
| Mesh.Dr | Numerical_schemes.py:19 | the rate step is positive on every valid domain |
| Mesh.TauGrid | Numerical_schemes.py:22 | the pseudo-time grid runs from 0 to T in steps of exactly dtau |
| Mesh.CalendarGrid | Numerical_schemes.py:23 | the reversed calendar grid `(T - tau)[::-1]` is, point for point, the pseudo-time grid |
| Mesh.RateGrid | Numerical_schemes.py:24 | the rate grid runs from rMin to rMax, strictly increasing in steps of exactly dr |
| Mesh.RateOrder | Numerical_schemes.py:24 | rate nodes are ordered, and equal, exactly as their indices are |
| Mesh.CalendarOfLevel | Numerical_schemes.py:56-57 | calendar time T - tau_n of level n is the pseudo-time point N - n |
| Mesh.Embed | Numerical_schemes.py:124 | a full row is the two edge values around the interior solution, which lands at indices 1 .. M-1 |
| Mesh.Reverse | Numerical_schemes.py:60 | row k of the reversed field is row N - k of the history |
| Mesh.ReverseReverse | Numerical_schemes.py:60 | reversing twice gives the history back, so the calendar field determines the history |
| Operator.QuotientsAreStencil | Numerical_schemes.py:48-52 | the difference quotients of drift, diffusion and discount define the same operator as the three stencil weights |
| Operator.WeightsSum | Numerical_schemes.py:48-52 | the stencil weights sum to -r, so the differences vanish on constants |
| Operator.ApplyConstant | Numerical_schemes.py:48-52 | on a constant row the operator is pure discounting, -r v |
| Operator.ApplyLinear | Numerical_schemes.py:48-52 | the operator is linear in its three stencil values |
| Explicit.NodeIsEuler | Numerical_schemes.py:47-53 | the difference-quotient update of node i is the previous value plus dtau times the operator's stencil |
| Explicit.Step | Numerical_schemes.py:46-57 | a step has M + 1 entries, carries the closed-form price of the new level on both edges and updates every interior node |
| Explicit.StepIsEuler | Numerical_schemes.py:47-53 | every interior node of a step is the forward Euler update of the previous level |
| Explicit.StepIsLocal | Numerical_schemes.py:47-53 | a node's new value depends only on nodes i-1, i and i+1 of the previous level |
| Explicit.FirstStepDiscounts | Numerical_schemes.py:44-53 | the first step from the payoff gives 1 - dtau r_i at every interior node |
| Explicit.ConstantDiscounts | Numerical_schemes.py:47-53 | where the previous level is constant around a node, the update only discounts |
| Explicit.History | Numerical_schemes.py:44-57 | level 0 is the payoff and each later level is one step from the one before |
| Explicit.Scheme | Numerical_schemes.py:43-61 | the returned field ends in the payoff, and each earlier calendar row is a step from the row after it |
| Explicit.SchemeBoundary | Numerical_schemes.py:56-60 | every row before maturity carries the closed-form price at its own calendar time on both edges |
| Implicit.WeightsFromOperator | Numerical_schemes.py:103-105 | alpha, beta and gamma_coef are dtau times the operator's weights, with the identity added on the diagonal |
| Implicit.BackwardEulerWeights | Numerical_schemes.py:103-105 | the weighted row -alpha, beta, -gamma_coef is the backward Euler residual of the new level |
| Implicit.FirstSystemRow | Numerical_schemes.py:107-118 | the first row has no sub-diagonal entry, and alpha times the new left edge value is added to its right-hand side |
| Implicit.LastSystemRow | Numerical_schemes.py:107-119 | the last row has no super-diagonal entry, and gamma_coef times the new right edge value is added to its right-hand side |
| Implicit.MiddleSystemRow | Numerical_schemes.py:107-112 | an interior row carries the three weights and the previous value |
| Implicit.RowsMeaning | Numerical_schemes.py:100-112 | the interior rows hold on a full row exactly when it satisfies the backward Euler equations |
| Implicit.SystemMeaning | Numerical_schemes.py:93-124 | x solves the step's system exactly when the edge values framing x satisfy backward Euler at every interior node |
| Tridiagonal.Thomas | Numerical_schemes.py:66-87 | the solver succeeds exactly when every leading minor is non-zero; the result then solves the system and is its only solution; otherwise the first singular minor is reported |
| Tridiagonal.Eliminate | Numerical_schemes.py:71-79 | forward elimination completes exactly when the system is regular; it stops at the first singular leading block |
| Tridiagonal.Sweep | Numerical_schemes.py:72-78 | the loop over rows 1 .. n-2 normalises each row by its pivot and keeps the minor relation |
| Tridiagonal.PivotIsMinorRatio | Numerical_schemes.py:75 | each pivot b[i] - a[i] cp[i-1] is the ratio of consecutive leading minors |
| Tridiagonal.BackSubstitute | Numerical_schemes.py:81-85 | the last unknown is dp[n-1] and each earlier one is dp[i] - cp[i] x[i+1] |
| Tridiagonal.SubstitutionSolves | Numerical_schemes.py:66-87 | back substitution over a completed elimination satisfies every row of the system |
| Tridiagonal.SubstitutionUnique | Numerical_schemes.py:66-87 | every solution of the system is the back-substituted vector |
| Tridiagonal.ForcedUpTo | Numerical_schemes.py:72-85 | any solution meets the substitution relation of every row that elimination produced |
| Tridiagonal.CornersIgnored | Numerical_schemes.py:72-79 | a[0] and c[n-1] are never read: regularity, singularity and solutions do not depend on them |
| Reduction.AddEdges | Numerical_schemes.py:118-119 | the edge terms change only the first and last right-hand sides |
| Reduction.ReducedRow | Numerical_schemes.py:107-119 | a row of the reduced system has the residual of its equation on the full row |
| Reduction.ReduceMeaning | Numerical_schemes.py:107-124 | x solves the reduced system exactly when the edge values framing x satisfy every three-point equation |
| CrankNicolson.Mirror | Numerical_schemes.py:139-144 | the two coefficient sets have opposite off-diagonal weights and diagonal weights that sum to two |
| CrankNicolson.LhsIsHalfStep | Numerical_schemes.py:139-141 | the implicit side is the identity minus half a step of the operator |
| CrankNicolson.RhsIsHalfStep | Numerical_schemes.py:142-144 | the explicit side is the identity plus half a step of the operator |
| CrankNicolson.Matrix | Numerical_schemes.py:147-158 | A_matrix is square of size M-1 and tridiagonal |
| CrankNicolson.RhsVectorIsHalfStep | Numerical_schemes.py:167-174 | entry k of the right-hand side before the edge terms is the known value at node k + 1 plus dtau/2 times the operator applied to the known level there |
| CrankNicolson.EdgesMoved | Numerical_schemes.py:177-178 | the two edge terms are the implicit-side edge weights times the new edge values, moved to the right-hand side |
| CrankNicolson.FromBands | Numerical_schemes.py:180-189 | reading the three bands gives a well-formed system with the given right-hand side |
| CrankNicolson.BandsKeepSolutions | Numerical_schemes.py:180-191 | for a banded matrix, x solves the dense system exactly when it solves the band system |
| CrankNicolson.MatrixBands | Numerical_schemes.py:147-189 | the bands of A_matrix are the implicit-side weights with the two unused slots zero |
| CrankNicolson.CorrectedIsReduced | Numerical_schemes.py:167-178 | the corrected right-hand side is the explicit side with the edge terms moved across |
| CrankNicolson.AssemblyIsReduction | Numerical_schemes.py:147-189 | the assembled band system is the reduction of the implicit-side equations |
| CrankNicolson.RowIsTrapezoid | Numerical_schemes.py:139-174 | equation k holds exactly when node k + 1 satisfies the trapezoidal rule |
| CrankNicolson.RowsMeaning | Numerical_schemes.py:139-174 | the equations hold on a full row exactly when it is a Crank-Nicolson step |
| CrankNicolson.SystemMeaning | Numerical_schemes.py:160-192 | x solves the step's band system exactly when the edge values framing x make a Crank-Nicolson step |
| CrankNicolson.DenseMeaning | Numerical_schemes.py:147-192 | x solves A_matrix with the corrected right-hand side exactly when it makes a Crank-Nicolson step |
| Marching.SystemMeaning | Numerical_schemes.py:122-124 | for either scheme, x solves the step's system exactly when the framed row satisfies the scheme's equations |
| Marching.FramedRow | Numerical_schemes.py:115-124 | a row that carries the edge values is its edge values around its interior |
| Marching.Step | Numerical_schemes.py:115-124 | a step succeeds exactly when its system is regular; the new level then has the closed-form edges, satisfies the scheme, and is the only such level |
| Marching.Extend | Numerical_schemes.py:93-124 | appending the only step to the only history of n steps gives the only history of n + 1 steps |
| Marching.Advance | Numerical_schemes.py:161-192 | one pass of the time loop either extends the unique history or reports the level and row of the zero pivot |
| Marching.March | Numerical_schemes.py:90-128 | on success the field has N + 1 rows, its reversal is a history, and it is the only such field; on failure the reported level is before N and breaks down there |
| HatBasis.Support | Numerical_schemes.py:207-231 | the slope is 0 or +-1/dr, non-zero exactly on the closed support, and the hat vanishes off the support |
| HatBasis.Range | Numerical_schemes.py:207-218 | every hat lies between 0 and 1 |
| HatBasis.Kronecker | Numerical_schemes.py:207-218 | hat i is 1 at node i and 0 at every other node |
| HatBasis.OnCell | Numerical_schemes.py:207-218 | on a cell, its left hat falls linearly from 1 to 0 and its right hat rises from 0 to 1 |
| HatBasis.OffCell | Numerical_schemes.py:207-231 | every other hat is zero on the cell, and so is its slope except at the cell's two nodes |
| HatBasis.HatOnCell | Numerical_schemes.py:207-218 | the value of every hat on a cell, in one statement |
| HatBasis.PartialSums | Numerical_schemes.py:207-218 | partial sums of the hats on a cell pick up only the cell's two hats |
| HatBasis.Cell | Numerical_schemes.py:24 | every rate of the domain lies in some cell of the grid |
| HatBasis.PartitionOfUnity | Numerical_schemes.py:207-218 | the hats sum to one everywhere on the rate domain |
| HatBasis.Slope | Numerical_schemes.py:207-231 | inside a cell each hat changes by exactly its assigned slope times the distance, so dphi is phi's derivative |
| HatBasis.FallingSide | Numerical_schemes.py:207-231 | inside cell j, hat j is (r_{j+1} - r)/dr with slope -1/dr |
| HatBasis.RisingSide | Numerical_schemes.py:207-231 | inside cell i-1, hat i is (r - r_{i-1})/dr with slope 1/dr |
| FemAssembly.OverlapIffNeighbours | Numerical_schemes.py:234-250 | two supports overlap in an interval of positive length exactly when the hats are equal or neighbours |
| FemAssembly.VanishOffOverlap | Numerical_schemes.py:248-255 | both integrands vanish outside the overlap, so integrating over the overlap only loses nothing |
| FemAssembly.Assemble | Numerical_schemes.py:234-255 | the assembled matrix is square of size M + 1 |
| FemAssembly.AssembledBanded | Numerical_schemes.py:248-255 | both matrices are tridiagonal for any quadrature, and each band entry is the quadrature over the overlap |
| FemAssembly.MassSymmetric | Numerical_schemes.py:251 | the mass matrix is symmetric when the quadrature agrees on the two orders of the factors |
| FemAssembly.StepMatrices | Numerical_schemes.py:257-258 | LHS and RHS average to the mass matrix, differ by dtau times the stiffness matrix, and are tridiagonal |
| FemDirichlet.EliminatedRows | Numerical_schemes.py:269-281 | the edge rows become unit rows carrying the edge values; interior rows keep LHS outside the cleared edge columns, and their right-hand sides lose the moved edge terms |
| FemDirichlet.MovedRow | Numerical_schemes.py:272-275 | clearing the edge columns and moving their terms keeps the row's residual whenever the edge entries take the edge values |
| FemDirichlet.EliminationMeaning | Numerical_schemes.py:269-281 | a vector solves the eliminated system exactly when it carries the edge values and satisfies the Galerkin equations inside |
| FemDirichlet.StepMeaning | Numerical_schemes.py:263-283 | solving a step's system is the same as taking a finite-element step with the new closed-form edges |
| FemDirichlet.Levels | Numerical_schemes.py:260-285 | the loop keeps N + 1 levels of M + 1 values, starting from the payoff |
| FemDirichlet.LevelsStep | Numerical_schemes.py:263-285 | each level is the solver's answer to the previous level's system, and later passes keep earlier levels |
| FemDirichlet.LevelsMeaning | Numerical_schemes.py:260-285 | the loop yields a finite-element history exactly when the solver was exact at every level |
| FemDirichlet.Field | Numerical_schemes.py:287-289 | the returned field ends in the payoff and is the reversal of the loop's levels |
| ErrorField.ErrorMeaning | Numerical_schemes.py:338-339 | each error entry is the absolute difference of the two fields: it equals one of the two differences and is at least the other, so it is non-negative and zero exactly where the fields agree |
| ErrorField.ErrorSymmetric | Numerical_schemes.py:338-339 | swapping the two fields leaves the error unchanged |
| ErrorField.ErrorTriangle | Numerical_schemes.py:338-339 | the error against a third field is at most the sum of the errors through a second |
| ErrorField.EdgeErrorZero | Numerical_schemes.py:338-344 | against the closed-form field evaluated on the grid (lines 37-40), a field exact on its edges has zero error on both edges of every row before maturity |
| ErrorField.ReversedHistoryEdges | Numerical_schemes.py:56-60 | a history whose levels carry their own closed-form edges is exact on its edges once reversed |
| ErrorField.ExplicitEdges | Numerical_schemes.py:56-60 | the explicit field is exact on both edges before maturity |
| ErrorField.MarchedEdges | Numerical_schemes.py:115-127 | an implicit or Crank-Nicolson field is exact on both edges before maturity |
| ErrorField.FemEdges | Numerical_schemes.py:265-289 | the finite-element field is exact on both edges before maturity when its solver was exact |

## Left out

- The closed-form price (`compute_A`, `compute_B`, `sol_analytique`, which use `exp`) is not modelled. It is a parameter `bc` of type `Mesh.Price`, read only at grid points.
- Floating point is left out: all arithmetic is exact real arithmetic, so rounding and overflow are not modelled.
- Module globals become the `Mesh.Params` record. `Mesh.Valid` asks for N >= 1, M >= 1 and rMin < rMax, since the source divides by N and by dr.
- `scipy.integrate.quad` is a parameter `FemAssembly.Quadrature`. Only which entries are integrated, over which interval, and of which integrand is modelled, not the value of any integral.
- `np.linalg.solve` is a parameter `FemDirichlet.Solver`. `FemDirichlet.Sized` only asks that it return a vector of the right length, and exactness is a hypothesis (`ExactAt`).
- FemDirichlet.Levels: the solver always returns a vector, so the `LinAlgError` that `np.linalg.solve` raises on a singular `A_sys` (line 283) is not modelled. A singular level shows up only as `ExactAt` failing there.
- Plotting (`matplotlib`, lines 295-335 and 346-377) is left out.
- Implicit and Crank-Nicolson steps require M >= 3. For M = 2 the Thomas call fails with an index error on a system of one unknown (`cp[0]` of an empty array). For M = 1 both schemes fail before any solve: the implicit scheme at line 118 (`d_vec[0]` of an empty array), Crank-Nicolson at line 148 (`A_matrix[0, 0]` of a 0 x 0 array).
- Tridiagonal.Thomas: a zero pivot is reported as `Failure(ZeroPivot(row))`. The source divides by zero there, which numpy turns into inf or nan.
- Tridiagonal.WellFormed: requires at least two unknowns, since the source indexes `cp[0]` and `dp[n - 2]`.
- HatBasis.Slope: stated on open cells. At a node, `dphi` returns one of the two one-sided slopes, where no derivative exists.
- FemAssembly.MassSymmetric: requires the quadrature to give the same value for `phi_i phi_j` and `phi_j phi_i`. The quadrature is an opaque parameter.
- FemAssembly.Assemble: states the matrix shape and, through AssembledBanded, the band structure, not any integral value.
- Marching.March: the time loop is modelled on whole rows, not on the in-place writes into `Q`.
