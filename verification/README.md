# A model of a circuit simulator's transformations

The repository is a circuit simulator: it reads a hierarchical netlist and a set
of equations, expands the one and orders the other, and solves the systems of
equations its analyses set up. This project models the parts of it that
transform something and have to keep its meaning, and proves that they do.

* **Dense linear systems.** The equation solver keeps one packed matrix, a
  permutation and the row scales between calls. LU decomposition (Crout and
  Doolittle), Gauss, Gauss-Jordan, Householder QR and the two iterative methods
  work in place on it. `EqnSys`, `Elimination`, `Householder` and `Iterative`
  hold the methods; `LinearAlgebra`, `LinearSystems`, `LuFactors`, `LuSteps`,
  `RowOperations`, `Reflections` and `QrSteps` hold what is said about them, and
  `Arithmetic` what they need about reals. `StaleFactors` and `NextCalls` are about
  calls without a new matrix, and `Solvers` runs the algorithms side by side.
  The statement for LU covers every matrix: a missing pivot is replaced by a
  small constant, and the solution is that of the matrix with exactly these
  constants added. A report is made if and only if the matrix is singular.
* **Fourier transforms and harmonic balance.** The fast transform in place is
  the defining sum (`Fourier`), inverses are inverses (`Inversion`,
  `Transforms`), the transforms of two real vectors at once separate and
  recombine (`TwoForOne`), the fast circulant fill of the Jacobian's blocks
  leaves what the slow form leaves (`MatrixFft`), and the frequency sets and
  spectra of the solver have the layout the transforms need (`Harmonics`,
  `SpectrumLayout`); `Combinations` is about the places in these sets.
* **Subcircuit expansion.** `SubCycles` is the check for cyclic definitions;
  `Expansion` is the expansion itself on mutable templates, with its marks and
  its blank nodes; `Flattening` says that the two passes are a direct
  resolution of names; `Connectivity` says that names are equal exactly when
  nodes are connected, `NetlistTerminals` and `ExpandedTerminals` say it of the
  terminals of the netlist that is left, `InnerNames` spells the names out, and
  `NameCollisions` says for which names it fails.
* **Equations.** `Differentiate` is the table of symbolic derivatives with the
  simplifications made on the fly (`Simplify`). `DualNumbers` differentiates
  the definitions of the functions independently, in forward mode, and
  `DerivativeSound` and `Taylor` connect the two. `EquationOrder` and
  `EquationSolver` are the reordering by dependencies and the evaluation.
* **Containers.** `HashTables` and `HashIterators` are the hash table against a
  finite map; `MatrixNames` and `MatrixVectors` are the naming scheme by which
  vectors of matrices pass through a dataset.

Numbers are exact reals, and complex numbers pairs of them. The solver's
smallest number is a parameter, any positive real. Sine, cosine, the exponential
function and the other elementary functions are parameters with the laws they
are known for (`Roots.Lawful`, `Expressions.Lawful`); square roots and lengths
likewise (`Householder.Lengths`). Exceptions are collected in a sequence, as the
exception stack does. An assertion that can fail is a boolean result. Code that
works in place is modelled by methods on arrays and objects whose contracts name
a function or a relation on the values before and after; the properties are
proved about those.

## What the code does not do

* Names inside subcircuits are joined with dots, but the names joined may have
  dots themselves, so that two nodes that are not connected can become one. Each
  of these makes it possible: a dot in the name of an instance, a dot in the name
  of a definition, and a root node name with two dots or more unless `gnd` or a
  global name follows the second dot. Nothing else does; a root node name with
  one dot is harmless, and the names of nodes inside definitions never matter
  (`NameCollisions.HarmlessIff`).
* The iterative solver falls back on LU decomposition, which factors only after a
  new matrix. Without one it takes the triangles of the normalized matrix and the
  permutation of an earlier call for factors. That is right for every right hand
  side if and only if the matrix is the product of its triangles, its rows in the
  order of the permutation (`StaleFactors.StaleRightIff`), and otherwise wrong for
  some (`StaleFactors.StaleAnswersWrongly`); with the rows in place,
  if and only if the parts below and above the diagonal multiply to zero
  (`StaleFactors.InPlaceRightIff`). With ones on and one half off a diagonal of two
  it answers (1.25, -0.5) for (1, 0) and reports nothing
  (`NextCalls.FallsBackWrongly`).
* The iterative solver normalizes the caller's matrix but only its own copy of the
  right hand side, and after a fallback the caller's matrix holds the factors. A
  call without a new matrix solves with what was left and with the new right hand
  side as it is. For a normalized matrix whose rows stayed in place that is right
  for every right hand side if and only if the diagonal was 1 already
  (`NextCalls.NormalizedRightIff`, `NextCalls.SolveTwice`).
* When a definition repeats a port name the last position wins
  (`Connectivity.PortsKeptIffDistinct`).
* The derivatives of `arcsec`, `arccosec` and `arcosech` leave out a sign; each
  is right exactly where its argument is positive or does not move
  (`DerivativeRules.ArcSecRule` and its two neighbours,
  `DerivativeSound.SecantSignLeftOut`).
* The simplifier turns the literal 0 to any power into 0, to the power 0 as well;
  this is its only departure (`Simplify.PowerRefinesIff`).
* The test of the reordering counts a reference twice when it is both defined and
  of generated form (a dot and four digits at the end). That goes wrong in both
  directions: an equation whose references are all defined already is refused
  (`EquationOrder.DefinedButRefused`) and stays unmarked, and one with a reference
  that is defined nowhere is marked (`EquationOrder.UndefinedButAccepted`).
  Which equations are marked then depends on the order of the input
  (`EquationOrder.OrderDecides`). The test is free of the one failure if and only
  if no left hand side is of generated form, and free of the other under the same
  condition (`EquationOrder.TestRightIffProper`). Results can then depend on the
  order as well, and an equation need not hold with the final values
  (`EquationSolver.ResultsDiffer`).
* Names of generated form have four digits, but the counter they are made from is
  printed with at least four: from 10000 on they are not recognized any more
  (`EquationOrder.LongCounterNotGenerated`).
* The QR factorization measures the columns below the first row to choose its first
  pivot (`Householder.FirstPivotIs`), so the column taken need not be the longest.
* The import of matrix vectors clears the candidate before the loop condition
  tests it, so only the first name is imported
  (`MatrixVectors.AllTakenIff`, `MatrixVectors.SecondGroupIsLost`). A name with
  the index 0 is taken for an element and then fails the assertion on its index
  (`MatrixVectors.FindMatrixVectors`).

## Model

| member | source | states |
|---|---|---|
| LuFactors.FactorsSolve | src/eqnsys.cpp:460-478 | the two triangular solutions together solve the original system, rows exchanged or not |
| LuFactors.FactoredIsRegular | src/eqnsys.cpp:323-382 | a matrix with factors and non-zero pivots is not singular |
| LuFactors.UnpackedFactors | src/eqnsys.cpp:460-478 | whatever is in the matrix and the permutation, they are the factors of the matrix they unpack to |
| LuFactors.DependentColumn | src/eqnsys.cpp:340-369 | a column without a pivot depends on the columns factored before it, so the matrix is singular |
| LuSteps.NoPivot | src/eqnsys.cpp:358-369 | the first column without a pivot shows that the matrix passed is singular |
| LuSteps.VirtualResistance | src/eqnsys.cpp:279-284 | putting the small constant in place of a missing pivot factors the matrix with that constant added at one place |
| LuSteps.Exchange | src/eqnsys.cpp:371-378 | exchanging row c with the pivot row keeps the product of the factors, the permutation and the scales in step, with the lower part of both rows already reduced |
| LuSteps.ReachedWithoutPivot | src/eqnsys.cpp:358-369 | one column without a pivot extends the factorization of the perturbed matrix |
| LuSteps.ReachedWithPivot | src/eqnsys.cpp:371-378 | one column with its pivot exchanged extends the factorization |
| LuSteps.FinishedFactors | src/eqnsys.cpp:323-382 | n columns done are factors of the matrix with the constant added at the reported places; nothing reported means that the matrix is not singular |
| LuSteps.RowScaleIs | src/eqnsys.cpp:328-337 | scaled by its factor, no element of a row exceeds one in magnitude |
| LuSteps.RowScaleReached | src/eqnsys.cpp:328-337 | and one of a row that is not zero is of magnitude one |
| EqnSys.EquationSystem.constructor | src/eqnsys.cpp:55-65 | a new solver has no system and asks for a factorization first |
| EqnSys.EquationSystem.PassEquationSys | src/eqnsys.cpp:103-122 | a new matrix is referred to, not copied, and asks for a factorization; without one the old factors and permutation stay; the right hand side is copied |
| EqnSys.EquationSystem.InitPivots | src/eqnsys.cpp:328-337 | row scales are the reciprocals of the largest magnitudes, of the small constant for a zero row; the permutation starts as the identity |
| EqnSys.EquationSystem.ReduceUpper | src/eqnsys.cpp:340-345 | the upper part of column c becomes that of the factors, other columns stay |
| EqnSys.EquationSystem.ReduceLower | src/eqnsys.cpp:346-356 | the lower part of column c becomes that of the factors, and the pivot is the largest scaled magnitude |
| EqnSys.EquationSystem.ExchangePivot | src/eqnsys.cpp:371-378 | the pivot row changes places with row c in the matrix, the permutation and the scales |
| EqnSys.EquationSystem.InsertResistance | src/eqnsys.cpp:279-284 | a missing pivot is replaced and the original row number reported |
| EqnSys.EquationSystem.DivideColumn | src/eqnsys.cpp:445-449 | Doolittle divides the column below the pivot; Crout does not |
| EqnSys.EquationSystem.FactorizeLu | src/eqnsys.cpp:323-454 | for every square matrix, singular or not: the permutation is one, the pivots are non-zero, and L U equals the permuted matrix with the small constant added exactly at the reported rows and columns; nothing is reported if and only if the matrix is not singular; the pivots dominate their columns |
| EqnSys.EquationSystem.Forward | src/eqnsys.cpp:464-469 | solves L Y = B with the right hand side exchanged |
| EqnSys.EquationSystem.Backward | src/eqnsys.cpp:471-477 | solves U X = Y in place |
| EqnSys.EquationSystem.SubstituteLu | src/eqnsys.cpp:460-503 | solves the matrix that was factorized, for every right hand side passed later |
| EqnSys.EquationSystem.SolveLu | src/eqnsys.cpp:292-316 | factorizes only if a new matrix was passed; X solves the matrix passed when nothing was reported, and the perturbed one otherwise |
| LinearSystems.SolutionIsUnique | src/eqnsys.cpp:128-183 | a system that is not singular has at most one solution, so the algorithms cannot differ |
| LinearSystems.RightInverseIsLeft | src/hbsolver.cpp:654-686 | a right inverse of a matrix that is not singular is a left inverse as well |
| InvertMatrix.InvertMatrix | src/hbsolver.cpp:654-686 | one factorization and n substitutions give an inverse from both sides if no pivot is missing, which is the case if and only if the matrix is not singular; otherwise the inverse of the perturbed matrix |
| InvertMatrix.SolveColumn | src/hbsolver.cpp:668-680 | one substitution gives one column of the inverse and keeps the factors |
| RowOperations.ClearedSingular | src/eqnsys.cpp:203-217 | a column without a pivot depends on the columns before it |
| Elimination.FindPivot | src/eqnsys.cpp:205-211 | the largest magnitude of the column from the diagonal on |
| Elimination.ClearColumn | src/eqnsys.cpp:218-223 | one column cleared below the diagonal, solutions unchanged, stale entries below the diagonal not read again |
| Elimination.Triangulate | src/eqnsys.cpp:198-224 | stops exactly for singular matrices; otherwise an upper triangle with the same solutions |
| Elimination.SubstituteBack | src/eqnsys.cpp:226-231 | solves the upper triangle whatever is left below the diagonal |
| Elimination.SolveGauss | src/eqnsys.cpp:198-232 | a zero pivot column is met if and only if the matrix is singular; otherwise X solves the original system |
| Elimination.UnifyColumn | src/eqnsys.cpp:259-271 | one column becomes that of the unit matrix, solutions unchanged |
| Elimination.SolveGaussJordan | src/eqnsys.cpp:238-276 | the same for Gauss-Jordan: stops exactly for singular matrices, otherwise X solves the original system |
| Solvers.GaussIsGaussJordan | src/eqnsys.cpp:198-276 | run on two copies of one system, both give up on it or both leave the same solution |
| Solvers.GaussIsLu | src/eqnsys.cpp:198-316 | likewise Gauss and LU of either scheme: Gauss stops if and only if LU reports, and otherwise the solutions are equal |
| Solvers.CroutIsDoolittle | src/eqnsys.cpp:292-316 | likewise the two schemes: both report or neither does, and without a report the solutions are equal |
| Solvers.GaussIsQr | src/eqnsys.cpp:198-818 | Gauss stops if and only if the triangle of QR has a zero on its diagonal; the solutions are equal if the diagonal is clear of zero |
| Reflections.ReflectTwice | src/eqnsys.cpp:1086-1095 | a reflection undoes itself |
| Reflections.ReflectionIsIsometry | src/eqnsys.cpp:1086-1095 | a reflection keeps scalar products |
| Reflections.ReflectApply | src/eqnsys.cpp:1177-1189 | reflecting the columns of a matrix reflects what it makes of every vector |
| QrSteps.ColumnZeroed | src/eqnsys.cpp:1095-1114 | the reflection made from a column turns it into its signed length and zeros |
| QrSteps.ReflectionStep | src/eqnsys.cpp:1121-1129 | creating and applying a reflection extends the factorization by a column |
| QrSteps.EmptyStep | src/eqnsys.cpp:1095-1114 | a column that is zero below its diagonal needs none |
| QrSteps.FactoredSolves | src/eqnsys.cpp:1043-1050 | the upper triangular system has the solutions of the original one with its unknowns permuted |
| QrSteps.DiagonalDecides | src/eqnsys.cpp:953-997 | the matrix is singular if and only if the triangle has a zero on its diagonal |
| Householder.EuclidianUpdate | src/eqnsys.cpp:832-846 | the scaled sum represents one more square; no square of a large number is formed |
| Householder.EuclidianC | src/eqnsys.cpp:851-858 | the length of the rest of a column: its square is the sum of the squares |
| Householder.HouseholderCreateLeft | src/eqnsys.cpp:1095-1114 | stores the vector of the reflection over the column, returns its factor |
| Householder.HouseholderApplyLeft | src/eqnsys.cpp:1177-1189 | the columns to the right are reflected, all others stay |
| Householder.HouseholderLeft | src/eqnsys.cpp:1121-1129 | one step of the factorization |
| Householder.InitColumns | src/eqnsys.cpp:959-963 | the lengths of the columns below the first row, and the columns in order |
| Householder.LargestColumn | src/eqnsys.cpp:967-973 | the first of the largest lengths kept |
| Householder.PivotColumn | src/eqnsys.cpp:967-978 | this column changes places with the current one in the matrix and in both tables |
| Householder.ShortenedSquare | src/eqnsys.cpp:984-995 | the old length, the element in the row and the new length are the sides of a right triangle |
| Householder.UpdateNorms | src/eqnsys.cpp:984-995 | every length follows from the old one and the element in the row, or is measured anew when nearly nothing is left |
| Householder.LengthBelow | src/eqnsys.cpp:984-995 | a length that was that of its column from the row on is afterwards that of the column below the row |
| Householder.FactorizeQr | src/eqnsys.cpp:953-997 | the packed matrix and T hold reflections that turn the matrix with its columns in the order cMap into the triangle; every step takes the first column of the largest length kept, and the lengths and the order are those of the steps before |
| Householder.FirstPivotIs | src/eqnsys.cpp:953-978 | the first column taken is the first of those that are largest below the first row of the matrix passed |
| Householder.ReflectAllRightHandSide | src/eqnsys.cpp:1032-1041 | the right hand side is reflected by all of them in order |
| Householder.SubstitutePermuted | src/eqnsys.cpp:1043-1050 | every unknown goes to the place the permutation names; it is 0 where the diagonal is not clear of zero, and every other row of the triangle holds |
| Householder.SolveQr | src/eqnsys.cpp:815-818 | X solves the original system if every diagonal element exceeds epsilon, and in general if and only if the rows skipped hold too; the diagonal has a zero if and only if the matrix is singular; the columns are taken in the order of their lengths |
| Iterative.CountPairs | src/eqnsys.cpp:760-775 | none, one, or the first two rows with a value of magnitude one |
| Iterative.EnsureDiagonalMna | src/eqnsys.cpp:721-755 | what is left are the rows of the system passed in another order, right hand side included, so the solutions stay; nothing changes without a zero on the diagonal, and none is left if every zero has a row of its own to mend it |
| Iterative.LonePairs | src/eqnsys.cpp:727-739 | the pass step by step: a row with the only element of magnitude one is exchanged into the zero |
| Iterative.LoneStepMends | src/eqnsys.cpp:729-734 | that zero is gone after the step |
| Iterative.SeveralPairs | src/eqnsys.cpp:742-751 | the first of several rows is exchanged into the first zero, if no lone pair was found |
| Iterative.RaisingRow | src/eqnsys.cpp:785-793 | the first row with the largest element of the column among those whose exchange does not lower the diagonal at their own place |
| Iterative.Preconditioner | src/eqnsys.cpp:781-799 | every step exchanges the row just chosen into place; no diagonal element becomes smaller, and nothing changes if every one is the largest of its column |
| Iterative.Normalize | src/eqnsys.cpp:537-543 | every row and its right hand side divided by the diagonal element, solutions unchanged; it stops at the first zero, and does so if and only if the diagonal has one |
| Iterative.Prepare | src/eqnsys.cpp:521-543 | a system whose diagonal has no zeros, or only such that can be mended, is always normalized |
| Iterative.Sweep | src/eqnsys.cpp:551-565 | one Jacobi or Gauss-Seidel step from the previous values |
| Iterative.Converged | src/eqnsys.cpp:566-574 | every unknown changed by less than abstol + reltol times its magnitude |
| Iterative.ResidualBound | src/eqnsys.cpp:551-574 | after such a step the residual of row r is at most the sum over the other columns of |A(r,c)| (abstol + reltol |X(c)|) |
| Iterative.Iterate | src/eqnsys.cpp:545-578 | the whole run: every list of values comes from the one before by a step; it ends at the first one that is near enough or after MaxIter, not before the first |
| Iterative.SolveIterative | src/eqnsys.cpp:513-595 | the run on the normalized system, which has the solutions of the one passed; on convergence the residual is within the bound and the normalized matrix is left in place; otherwise LU takes over: after a new matrix it reports a missing pivot if and only if the matrix is singular and without a report solves the system passed and leaves the factors; without one it answers every right hand side correctly if and only if the normalized matrix is the product of its triangles in the order of the permutation, and then solves the system passed |
| Iterative.FallBack | src/eqnsys.cpp:582-587 | the LU solver run on the normalized system, factorizing only after a new matrix; without one right for every right hand side if and only if the matrix is the product of its triangles |
| StaleFactors.SameAnswersIff | src/eqnsys.cpp:292-316 | solving with another matrix is right for every right hand side if and only if the matrices agree |
| StaleFactors.StaleRightIff | src/eqnsys.cpp:299-303 | substitution in a matrix that was not factorized is right for every right hand side if and only if the matrix is the product of its own triangles, its rows in the order of the permutation |
| StaleFactors.StaleAnswersWrongly | src/eqnsys.cpp:299-303 | otherwise there is a right hand side to which every answer is wrong |
| StaleFactors.InPlaceRightIff | src/eqnsys.cpp:299-303 | with ones on the diagonal and the rows in place that is so if and only if the parts below and above the diagonal multiply to zero |
| StaleFactors.FactorsRightIff | src/eqnsys.cpp:299-303 | factors in place of a matrix stand for it under the same condition |
| NextCalls.HalvesDoNotConverge | src/eqnsys.cpp:545-578 | from zeros neither method has converged on the matrix with ones on and one half off the diagonal after the two steps that are made |
| NextCalls.HalvesAnswerWrongly | src/eqnsys.cpp:460-478 | its triangles answer (1.25, -0.5) for the right hand side (1, 0), which does not solve the system |
| NextCalls.FallsBackWrongly | src/eqnsys.cpp:513-595 | a call without a new matrix on that system ends with this answer and reports nothing |
| NextCalls.NormalizedRightIff | src/eqnsys.cpp:537-543 | a normalized matrix left in place of the one passed is right for every right hand side if and only if the diagonal was 1 already |
| NextCalls.CallAgain | src/nasolver.cpp:993-1000 | a call without a new matrix solves with the matrix in place and the right hand side as it is passed |
| NextCalls.SolveTwice | src/nasolver.cpp:993-1000 | a call with a new matrix and one without: the second solves with the normalized matrix if the first converged, else with the factors, and when either is right |
| Roots.RootIs | src/fourier.cpp:69-78 | the twiddle factors are cosine and sine of -2 pi q / n, of 2 pi q / n for the inverse |
| Roots.HalfAngle | src/fourier.cpp:75-78 | the increment -2 sin^2(th/2) of the twiddle recurrence is cos(th) - 1 |
| BitReversal.ReverseInvolution | src/fourier.cpp:52-67 | reversing the digits of an index twice gives the index |
| BitReversal.CarryReverses | src/fourier.cpp:61-66 | the carry loop steps from the reversal of i to that of i + 1 |
| Dft.Halves | src/fourier.cpp:66-95 | a transform of 2n values from those of its even and odd values |
| Dft.Butterfly | src/fourier.cpp:84-89 | the two values a butterfly computes |
| Dft.Periodic | src/fourier.cpp:193-208 | the transform is periodic |
| FftStages.JoinBlocks | src/fourier.cpp:66-95 | one stage joins the transforms of blocks pairwise, blocks in bit reversed order |
| Fourier.ReverseBits | src/fourier.cpp:52-67 | the swaps leave the values in bit reversed order |
| Fourier.NextIndex | src/fourier.cpp:61-66 | the carry loop: add one at the highest digit |
| Fourier.Butterfly | src/fourier.cpp:84-89 | two values become sum and difference with the twiddle factor |
| Fourier.NextTwiddle | src/fourier.cpp:91-92 | the recurrence on wr and wi multiplies by the root of unity |
| Fourier.JoinStage | src/fourier.cpp:66-95 | one stage: all the blocks are joined |
| Fourier.Fft1d | src/fourier.cpp:50-96 | for every power of two and both signs, in place: exactly the values of the defining sum, nothing outside the section touched |
| Inversion.Orthogonal | src/fourier.cpp:213-224 | the powers of a root and of another sum to n or to zero |
| Inversion.InverseTransform | src/fourier.cpp:213-232 | transforming forth and back multiplies by the length, for every length |
| Transforms.BinarySize | src/fourier.cpp:164-166 | a power of two that holds the vector, whose half does not |
| Transforms.FftVector | src/fourier.cpp:161-188 | the transform of the vector padded with zeros; divided by the size for the inverse |
| Transforms.FftThereAndBack | src/fourier.cpp:161-229 | ifft_1d(fft_1d(v)) is v, padded |
| Transforms.DftVector | src/fourier.cpp:213-224 | the defining sum for every length |
| Transforms.DftThereAndBack | src/fourier.cpp:213-232 | idft_1d(dft_1d(v)) is v for every length |
| Transforms.DftInPlace | src/fourier.cpp:193-208 | the slow transform in place leaves what the fast one leaves |
| TwoForOne.RealSymmetry | src/fourier.cpp:100-130 | the transform of real values is symmetric up to conjugation |
| TwoForOne.Separation | src/fourier.cpp:116-128 | the even and odd parts of the packed transform are the two transforms |
| TwoForOne.SeparatePair | src/fourier.cpp:116-129 | one turn of the separation, at j and its mirror image, in place |
| TwoForOne.Separate | src/fourier.cpp:113-129 | all values are separated although the first array still holds the packed transform while it is read |
| TwoForOne.FftTwoReal | src/fourier.cpp:100-130 | two real vectors become their two transforms |
| TwoForOne.PackSpectra | src/fourier.cpp:139-145 | two spectra are combined into one |
| TwoForOne.IfftTwoReal | src/fourier.cpp:135-155 | two spectra become the real and the imaginary parts of the inverse transform of their combination, imaginary places zero |
| TwoForOne.TwoRealThereAndBack | src/fourier.cpp:100-155 | both in turn give the vectors times the length, imaginary places zero |
| MatrixFft.NodeFft | src/hbsolver.cpp:1096-1119 | one node section transformed and divided by its length |
| MatrixFft.NodeThereAndBack | src/hbsolver.cpp:1096-1126 | the transform of a node, divided by its length, is undone by the inverse |
| MatrixFft.VectorFft | src/hbsolver.cpp:1096-1126 | every node section transformed on its own |
| MatrixFft.FillBlock | src/hbsolver.cpp:1156-1162 | a block is filled with the circulant of a spectrum |
| MatrixFft.MatrixFftFast | src/hbsolver.cpp:1147-1164 | every block becomes the circulant of the transform of its diagonal |
| MatrixFft.MatrixFftSlow | src/hbsolver.cpp:1132-1145 | every column transformed, then every row transformed back |
| MatrixFft.ColumnEntry | src/hbsolver.cpp:1133-1138 | after the columns, only the diagonal element has contributed |
| MatrixFft.TransformedOnce | src/hbsolver.cpp:1130-1166 | the transformed matrix is determined everywhere |
| MatrixFft.FastIsSlow | src/hbsolver.cpp:1130-1166 | run on two copies of any matrix with diagonal node blocks, as the device matrices are, the two forms leave the same matrix |
| Combinations.EveryCombinationOnce | src/hbsolver.cpp:334-364 | every combination of harmonics from -n to n + 1, one for every tone, stands at one place only |
| Harmonics.CalcOrder | src/hbsolver.cpp:367-371 | 2 (order + 1) is the least power of two that is at least 2 n; -1 without harmonics |
| Harmonics.AllMixedLength | src/hbsolver.cpp:376-436 | the number of frequencies is 2 order + 2 to the power of the number of tones |
| Harmonics.AllMixedAt | src/hbsolver.cpp:334-364 | for any number of tones: the digits of a place in base 2 order + 2 are the harmonics of the tones, 0 to order + 1 and then -order to -1, and the frequency there is their sum |
| Harmonics.AllRaisedAt | src/hbsolver.cpp:334-364 | in the one sided set the digits are the harmonics themselves |
| Harmonics.NotNegativeAre | src/hbsolver.cpp:430-436 | the frequencies kept are exactly those that are not negative, in their order |
| Harmonics.SingleTone | src/hbsolver.cpp:334-436 | one positive frequency: the set is 0, f, ..., (n+1) f, -n f, ..., -f; the frequencies kept are the first n + 2, and there are twice that minus two in all |
| Harmonics.Frequencies.ExpandFrequencies | src/hbsolver.cpp:334-364 | the earlier sets are repeated around every harmonic; the first frequency is treated as mixed with DC alone |
| Harmonics.Frequencies.FindFrequency | src/hbsolver.cpp:393-400 | whether a frequency within epsilon is known |
| Harmonics.Frequencies.CollectExcitations | src/hbsolver.cpp:388-406 | every excitation with a frequency is covered, the frequencies kept are all apart |
| Harmonics.Frequencies.CollectFrequencies | src/hbsolver.cpp:376-436 | the sets hold, place by place, the combinations of all the frequencies found; without excitations the analysis frequency is taken; the dimension of every tone is 2 order + 2 |
| Harmonics.Frequencies.KeepPositive | src/hbsolver.cpp:430-436 | the non-negative frequencies, in order |
| SpectrumLayout.ExpandSection | src/hbsolver.cpp:1233-1243 | one node: values copied, then conjugated backwards, all index variables in range |
| SpectrumLayout.ExpandVector | src/hbsolver.cpp:1228-1245 | every node section becomes its two sided spectrum, mirrored values conjugated |
| SpectrumLayout.ExpandMatrix | src/hbsolver.cpp:1249-1270 | every block gets the two sided diagonal of the one sided block, zeros elsewhere |
| SpectrumLayout.ExtendedHermitian | src/hbsolver.cpp:1228-1245 | the two sided spectrum is Hermitian if and only if DC and the highest frequency are real |
| SpectrumLayout.RealIffHermitian | src/hbsolver.cpp:1226-1245 | a spectrum is Hermitian if and only if its signal is real |
| SpectrumLayout.ExpandedSignalReal | src/hbsolver.cpp:1226-1245 | the time signal of an expanded vector is real if and only if its DC value and its value at the highest frequency are |
| SpectrumLayout.ExpandedProduct | src/hbsolver.cpp:1228-1270 | the expanded matrix times the expanded vector is the expansion of the product of the one sided matrix and vector |
| SpectrumLayout.ExpansionsFit | src/hbsolver.cpp:1228-1270 | what the two expanding functions return is such a pair |
| Netlist.FindIsFirst | src/check_netlist.cpp:526-545 | of several definitions of one name the first is meant |
| Netlist.PortNr | src/check_netlist.cpp:1287-1308 | of equal port names the last position wins, 0 for no port |
| Flattening.TranslateMeans | src/check_netlist.cpp:1345-1388 | the node made for a copy is the directly resolved one, or a blank that remembers the position of the port one level up |
| Flattening.FillMeans | src/check_netlist.cpp:1420-1461 | filling a blank one level up gives what direct resolution gives there |
| Flattening.CopiesAreLeaves | src/check_netlist.cpp:1504-1605 | the two passes, blank out and fill in, produce at every depth the leaves of the direct resolution, in the same order |
| Connectivity.JoinHeads | src/check_netlist.cpp:1313-1324 | definition and instance names without dots can be read back from the name they begin; only the name at the end may have dots |
| Connectivity.InternalNotSafe | src/check_netlist.cpp:1313-1324 | the name made for an inner node has a second dot with a name after it that is not global, so no safe name equals it |
| Connectivity.DefinitionsDiffer | src/check_netlist.cpp:1612-1672 | in an acyclic library the definitions on a way are all different |
| Connectivity.HomeFound | src/check_netlist.cpp:1420-1461 | every node is joined to its home: the place where it is not a port any more |
| Connectivity.WayDetermined | src/check_netlist.cpp:1504-1605 | the instance names on the way to a place determine the way |
| Connectivity.JoinedIffSameHome | src/check_netlist.cpp:1420-1461 | two nodes are joined through ports, gnd or global nodes if and only if they have the same home |
| Connectivity.HomesNamedApart | src/check_netlist.cpp:1345-1388 | different homes get different names |
| Connectivity.SameNameIffJoined | src/check_netlist.cpp:1504-1605 | two nodes of the hierarchy resolve to the same name if and only if they are joined, whatever the nodes inside definitions are called; only root nodes need safe names: at most one dot, or gnd or a global name after the second |
| Connectivity.PortsKeptIffDistinct | src/check_netlist.cpp:1287-1308 | a port means the node at its position, in every instance, if and only if no port name is repeated |
| NameCollisions.SafeNamesKept | src/check_netlist.cpp:1313-1324 | with safe root node names and no dots in definition and instance names, names are equal exactly when nodes are joined |
| NameCollisions.RootNameCollides | src/check_netlist.cpp:1313-1324 | every other root node name is that of a node of a cell it is not joined to, in some acyclic hierarchy |
| NameCollisions.InstanceNameCollides | src/check_netlist.cpp:1313-1324 | so does every instance name with a dot make two nodes that are not joined one |
| NameCollisions.DefinitionNameCollides | src/check_netlist.cpp:1313-1324 | and so does every definition name with a dot |
| NameCollisions.HarmlessIff | src/check_netlist.cpp:1313-1324 | flattening keeps connectivity in all acyclic hierarchies with given names if and only if the root node names are safe and neither definition nor instance names have a dot; names of inner nodes never matter |
| NetlistTerminals.NetlistIsHierarchy | src/check_netlist.cpp:1976-2024 | the components of the expanded netlist are exactly the elements of the hierarchy that are not instances, at every place instances lead to, each with its nodes resolved there |
| NetlistTerminals.AllSitesOnce | src/check_netlist.cpp:1976-2024 | and each of them is there once |
| NetlistTerminals.ComponentNamed | src/check_netlist.cpp:1313-1324 | a component keeps its type, and inside a definition is called after it, the instances on the way and itself |
| NetlistTerminals.TerminalResolved | src/check_netlist.cpp:1504-1605 | a terminal has the name its node resolves to at its place |
| NetlistTerminals.TerminalsNamedAlikeIffJoined | src/check_netlist.cpp:1976-2024 | flattening preserves connectivity in acyclic hierarchies with such names: two terminals of the expanded netlist have the same node if and only if their nodes are joined in the hierarchy |
| InnerNames.ResolvedName | src/check_netlist.cpp:1345-1388 | inside a definition a node that is no port is called after the definition, the instances on the way, outermost first, and itself; gnd and names ending in an exclamation mark stay |
| InnerNames.NameKeptIff | src/check_netlist.cpp:1367-1374 | such a node keeps its name if and only if it is gnd or ends in an exclamation mark |
| InnerNames.PortName | src/check_netlist.cpp:1287-1308 | a port is called what the node bound to it is called outside |
| SubCycles.SoundWalks | src/check_netlist.cpp:1612-1672 | from a definition that passes every chain of instances ends at a defined one and repeats none |
| SubCycles.WalksSound | src/check_netlist.cpp:1612-1672 | and conversely |
| SubCycles.SoundIffAcyclic | src/check_netlist.cpp:1612-1672 | a definition passes if and only if everything reachable is defined and nothing reachable reaches itself |
| SubCycles.CycleChecker.Validate | src/check_netlist.cpp:1612-1672 | terminates on every library; returns 0 if and only if the definition passes; on success deps holds the way and the definition itself, nothing of its children |
| ExpandedNetlist.TopCopies | src/check_netlist.cpp:1976-2024 | the copies of an instance of the root have no blank node left and are the directly resolved leaves |
| ExpandedNetlist.RootLeavesHaveNoInstance | src/check_netlist.cpp:1976-2024 | no instance is left in the expanded netlist |
| Expansion.XlatSubcircuitNodes | src/check_netlist.cpp:1287-1308 | every node of the element is marked with the position of the port it is and the node the instance binds it to, or left without a mark |
| Expansion.CleanupXlatNodes | src/check_netlist.cpp:1402-1410 | the marks are gone again |
| Expansion.CopySubcircuitNodes | src/check_netlist.cpp:1345-1388 | copied nodes are named from their marks: blank for a port below the top, bound name at the top, global name, or internal name |
| Expansion.CopyCircuitNodes | src/check_netlist.cpp:1420-1461 | blank nodes of a copy get their names from the marks one level up |
| Expansion.CopyAllCircuitNodes | src/check_netlist.cpp:1558-1563 | for all copies made one level down |
| Expansion.ReadyBelow | src/check_netlist.cpp:1545-1571 | a definition inside one that is being copied is another one: its marks are free |
| Expansion.Expander.CopyElement | src/check_netlist.cpp:1537-1594 | one element is copied; marks of enclosing levels are not disturbed and its own are cleaned up |
| Expansion.Expander.CopyInstance | src/check_netlist.cpp:1545-1572 | the instance list is extended for the call and restored |
| Expansion.Expander.CopySubcircuits | src/check_netlist.cpp:1504-1605 | terminates for definitions that pass; the chained copies are exactly those of the specification, their nodes are new and not shared |
| Expansion.Expander.ExpandSubcircuits | src/check_netlist.cpp:1976-2024 | the netlist is the directly resolved leaves of all root instances followed by the other elements; all marks on the templates are clean and the instance list is empty again |
| Simplify.PlusRefines | src/differentiate.cpp:127-144 | the simplified node has the value of the sum wherever that has one |
| Simplify.NegRefines | src/differentiate.cpp:160-170 | likewise for the negation |
| Simplify.MinusRefines | src/differentiate.cpp:172-189 | likewise for the difference |
| Simplify.TimesRefines | src/differentiate.cpp:204-227 | likewise for the product |
| Simplify.OverRefines | src/differentiate.cpp:244-286 | likewise for the quotient, cancelling a variable against its square included |
| Simplify.LnRefines | src/differentiate.cpp:343-352 | likewise for the logarithm of one and of Euler's number |
| Simplify.SqrtRefines | src/differentiate.cpp:379-388 | likewise for the root |
| Simplify.SqrRefines | src/differentiate.cpp:506-520 | likewise for the square |
| Simplify.HypotRefines | src/differentiate.cpp:713-730 | likewise for hypot with one literal zero |
| Simplify.PowerRefinesIff | src/differentiate.cpp:314-335 | likewise for the power if and only if it is not the literal base 0 with an exponent of value 0, which is folded to 0 |
| Simplify.AppIs | src/differentiate.cpp:390-400 | a factor times a function keeps its value |
| Expressions.PieceByPiece | src/evaluate.cpp:261-1762 | step, sign, absolute value and limited exponential at every point |
| Expressions.QuotientValues | src/evaluate.cpp:261-1762 | a quotient has no value at 0; the sine over its argument is 1 there |
| Expressions.CircularValues | src/evaluate.cpp:261-1762 | tangent, secant, cotangent and cosecant by sine and cosine |
| Expressions.ArcValues | src/evaluate.cpp:261-1762 | the inverse functions of the circular ones |
| Expressions.HyperbolicValues | src/evaluate.cpp:261-1762 | the hyperbolic functions by the exponential function |
| Expressions.LogarithmValues | src/evaluate.cpp:261-1762 | logarithms, root and squares |
| Expressions.AreaValues | src/evaluate.cpp:261-1762 | the area functions by logarithm and root |
| Slopes.BasicSlopes | src/differentiate.cpp:113-430 | the slopes of exp, sine, cosine, sums, products and quotients that all the others are made from |
| Slopes.PieceSlopes | src/differentiate.cpp:402-480 | and of the functions that are defined piece by piece |
| Differentiate.FreeIsFlat | src/differentiate.cpp:113-738 | an expression free of the variable differentiates to the literal 0, whatever functions it is made of |
| DerivativeRules.LnRule | src/differentiate.cpp:337-341 | the simplified tree evaluates to the slope that the chain rule on the definition of the function gives |
| DerivativeRules.Log10Rule | src/differentiate.cpp:354-360 | the simplified tree evaluates to the slope that the chain rule on the definition of the function gives |
| DerivativeRules.Log2Rule | src/differentiate.cpp:362-368 | the simplified tree evaluates to the slope that the chain rule on the definition of the function gives |
| DerivativeRules.SqrtRule | src/differentiate.cpp:370-377 | the simplified tree evaluates to the slope that the chain rule on the definition of the function gives |
| DerivativeRules.ExpRule | src/differentiate.cpp:402-406 | the simplified tree evaluates to the slope that the chain rule on the definition of the function gives |
| DerivativeRules.SincRule | src/differentiate.cpp:683-691 | the simplified tree evaluates to the slope that the chain rule on the definition of the function gives |
| DerivativeRules.NormRule | src/differentiate.cpp:693-699 | the simplified tree evaluates to the slope that the chain rule on the definition of the function gives |
| DerivativeRules.SqrRule | src/differentiate.cpp:498-504 | the simplified tree evaluates to the slope that the chain rule on the definition of the function gives |
| DerivativeRules.SinRule | src/differentiate.cpp:419-423 | the simplified tree evaluates to the slope that the chain rule on the definition of the function gives |
| DerivativeRules.CosRule | src/differentiate.cpp:425-430 | the simplified tree evaluates to the slope that the chain rule on the definition of the function gives |
| DerivativeRules.TanRule | src/differentiate.cpp:432-439 | the simplified tree evaluates to the slope that the chain rule on the definition of the function gives |
| DerivativeRules.SecRule | src/differentiate.cpp:441-450 | the simplified tree evaluates to the slope that the chain rule on the definition of the function gives |
| DerivativeRules.CotRule | src/differentiate.cpp:452-460 | the simplified tree evaluates to the slope that the chain rule on the definition of the function gives |
| DerivativeRules.CosecRule | src/differentiate.cpp:462-472 | the simplified tree evaluates to the slope that the chain rule on the definition of the function gives |
| DerivativeRules.AbsOfRule | src/differentiate.cpp:474-478 | the simplified tree evaluates to the slope that the chain rule on the definition of the function gives |
| DerivativeRules.ArcSinRule | src/differentiate.cpp:488-496 | the simplified tree evaluates to the slope that the chain rule on the definition of the function gives |
| DerivativeRules.ArcCosRule | src/differentiate.cpp:522-531 | the simplified tree evaluates to the slope that the chain rule on the definition of the function gives |
| DerivativeRules.ArcTanRule | src/differentiate.cpp:533-540 | the simplified tree evaluates to the slope that the chain rule on the definition of the function gives |
| DerivativeRules.ArcCotRule | src/differentiate.cpp:542-550 | the simplified tree evaluates to the slope that the chain rule on the definition of the function gives |
| DerivativeRules.SinhRule | src/differentiate.cpp:575-579 | the simplified tree evaluates to the slope that the chain rule on the definition of the function gives |
| DerivativeRules.CoshRule | src/differentiate.cpp:581-585 | the simplified tree evaluates to the slope that the chain rule on the definition of the function gives |
| DerivativeRules.TanhRule | src/differentiate.cpp:587-594 | the simplified tree evaluates to the slope that the chain rule on the definition of the function gives |
| DerivativeRules.CothRule | src/differentiate.cpp:596-604 | the simplified tree evaluates to the slope that the chain rule on the definition of the function gives |
| DerivativeRules.ArSinhRule | src/differentiate.cpp:635-643 | the simplified tree evaluates to the slope that the chain rule on the definition of the function gives |
| DerivativeRules.ArCoshRule | src/differentiate.cpp:625-633 | the simplified tree evaluates to the slope that the chain rule on the definition of the function gives |
| DerivativeRules.ArTanhRule | src/differentiate.cpp:606-613 | the simplified tree evaluates to the slope that the chain rule on the definition of the function gives |
| DerivativeRules.ArCothRule | src/differentiate.cpp:615-623 | the simplified tree evaluates to the slope that the chain rule on the definition of the function gives |
| DerivativeRules.ArSechRule | src/differentiate.cpp:645-655 | the simplified tree evaluates to the slope that the chain rule on the definition of the function gives |
| DerivativeRules.LimExpRule | src/differentiate.cpp:408-417 | the simplified tree evaluates to the slope that the chain rule on the definition of the function gives |
| DerivativeRules.VtRule | src/differentiate.cpp:734-738 | the simplified tree evaluates to the slope that the chain rule on the definition of the function gives |
| DerivativeRules.ArcSecRule | src/differentiate.cpp:552-561 | the rule gives the slope if and only if the argument is positive or does not move: it leaves out a sign |
| DerivativeRules.ArcCosecRule | src/differentiate.cpp:563-573 | the same condition, if and only if |
| DerivativeRules.ArCosechRule | src/differentiate.cpp:657-667 | the same condition, if and only if |
| DerivativeSound.ValueIs | src/evaluate.cpp:261-1762 | the value forward differentiation carries along is the value of the function |
| DerivativeSound.Rule1Is | src/differentiate.cpp:741-790 | every rule of the table with one argument yields the slope that forward differentiation finds |
| DerivativeSound.TimesRule | src/differentiate.cpp:191-202 | the product rule, constants folded |
| DerivativeSound.OverRule | src/differentiate.cpp:229-242 | the quotient rule over the square |
| DerivativeSound.HypotRule | src/differentiate.cpp:701-711 | the slope of the distance |
| DerivativeSound.PowerRuleIs | src/differentiate.cpp:288-312 | powers with a positive base, with a fixed or a moving exponent |
| DerivativeSound.FixedExponent | src/differentiate.cpp:288-312 | powers with a base that is not positive and an exponent free of the variable |
| DerivativeSound.IteCorrect | src/differentiate.cpp:669-681 | a choice has the slope of the branch taken |
| DerivativeSound.DerivativeIsSound | src/differentiate.cpp:113-738 | wherever forward differentiation of an expression finds a value and a slope, the expression has that value and its symbolic derivative, simplified on the fly, evaluates to that slope; the inverse secants only where their rules are right |
| DerivativeSound.SecantSignLeftOut | src/differentiate.cpp:552-561 | the derivative of arcsec at -2 has the wrong sign |
| Taylor.ValueNearby | src/differentiate.cpp:113-242 | the exact value of a polynomial at x + h |
| Taylor.RestIsBounded | src/differentiate.cpp:113-242 | the rest has a bound that does not depend on h |
| Taylor.DerivativeIsSlope | src/equation.cpp:391-399 | for + - * sqr: f(x+h) = f(x) + h f'(x) + h^2 q with q bounded for |h| <= 1 |
| ExpandedTerminals.TerminalsAre | src/check_netlist.cpp:1976-2024 | the copies on the heap followed by the elements kept are the expanded netlist, terminal by terminal |
| ExpandedTerminals.ExpandNetlist | src/check_netlist.cpp:1976-2024 | run on any acyclic hierarchy with such names and ports that are all different, the expansion leaves a netlist in which two terminals have the same node if and only if they are joined, gnd and global nodes keep their names, and every other inner node is called after its place |
| ExpandedTerminals.TerminalsNamed | src/check_netlist.cpp:1345-1388 | the names of the terminals on the heap, without any condition on names |
| EquationOrder.SuffixGenerated | src/equation.cpp:1505-1518 | a name with a suffix of a dot and four digits is of generated form |
| EquationOrder.GeneratedSplits | src/equation.cpp:1505-1518 | and no other name is |
| EquationOrder.LongCounterNotGenerated | src/equation.cpp:1945-1951 | so names made from a counter beyond four digits are not |
| EquationOrder.GeneratedMarked | src/equation.cpp:1780-1817 | an equation that refers to generated names only, none of them a left hand side, is marked in every list |
| EquationOrder.TestBalances | src/equation.cpp:1790-1799 | the code compares two counts: they agree if and only if as many references are missing as are counted twice |
| EquationOrder.TestMeansMet | src/equation.cpp:1790-1799 | without generated left hand sides an equation passes if and only if every reference is generated or defined |
| EquationOrder.TestRightIff | src/equation.cpp:1790-1799 | for given references the test is right if and only if none is counted twice, or some are missing and not as many as are counted twice |
| EquationOrder.DefinedButRefused | src/equation.cpp:1790-1799 | a reference to a generated left hand side alone is refused although it is defined |
| EquationOrder.UndefinedButAccepted | src/equation.cpp:1790-1799 | together with one, a reference that is defined nowhere is accepted |
| EquationOrder.TestRightIffProper | src/equation.cpp:1505-1518 | the test refuses nothing it should accept if and only if no left hand side is of generated form, and accepts nothing it should refuse under the same condition |
| EquationOrder.TestedIsOrdered | src/equation.cpp:1780-1817 | the order the test gives is the order by dependencies when no left hand side is of generated form |
| EquationOrder.MarkedMetIff | src/equation.cpp:1780-1817 | for any input: a marked equation has all references met if and only if none is counted twice; one left unmarked has them all met if and only if none is missing, and then one is counted twice |
| EquationOrder.OrderDecides | src/equation.cpp:1780-1817 | with a generated left hand side an equation that refers to it is marked when it comes before it in the input and not when it comes after it |
| EquationOrder.ReorderIsTested | src/equation.cpp:1780-1817 | the order computed passes the test, and nothing is lost |
| EquationOrder.GetsOrderedIff | src/equation.cpp:1780-1817 | for every input: the result is ordered by the references if and only if no marked equation has a reference that is counted twice and every other one has a missing one |
| EquationOrder.AlwaysOrderedIff | src/equation.cpp:1780-1817 | with given left hand sides, each defined without references and referred to somewhere: every list is ordered by its references if and only if no left hand side is of generated form |
| EquationOrder.Checker.FindEquation | src/equation.cpp:1679-1687 | whether a list has an equation for a name |
| EquationOrder.Checker.IsReady | src/equation.cpp:1790-1799 | the comparison of the two counts; without generated left hand sides, whether every reference is generated or found |
| EquationOrder.Checker.MoveEquation | src/equation.cpp:1742-1775 | dropped from one list, appended to the other and marked, nothing lost |
| EquationOrder.Checker.ReorderEquations | src/equation.cpp:1780-1817 | for every list: terminates although it starts over after every move; the order is that of always moving the first equation that passes; a permutation of the input; marked equations come first, each passing the test on those before it, every unmarked one failing it on the marked ones; without generated left hand sides, marked ones come after those they refer to and every unmarked one has an unmet reference; equations that refer to generated names only are marked |
| EquationOrder.MarkedIsLeast | src/equation.cpp:1780-1817 | every set closed under the dependencies contains the marked equations |
| EquationOrder.SameMarks | src/equation.cpp:1780-1817 | which equations are marked does not depend on the order of the input |
| EquationSolver.AllMarkedIff | src/equation.cpp:1780-1817 | all are marked if and only if no reference is undefined and there is no cycle |
| EquationSolver.Solver.Evaluate | src/equation.cpp:1892-1926 | the results are those of the marked equations evaluated in order, in an environment of results and given values |
| EquationSolver.ResultStays | src/equation.cpp:1892-1926 | no result is overwritten by a later equation |
| EquationSolver.EquationsHold | src/equation.cpp:1892-1926 | for every list: an equation holds between its final result and the final values of its references if none of them is defined by itself or a later marked equation |
| EquationSolver.UntouchedIff | src/equation.cpp:1892-1926 | in a list ordered by the references that is so if and only if no reference of generated form is defined from the equation on |
| EquationSolver.ProperUntouched | src/equation.cpp:1892-1926 | and always without generated left hand sides |
| EquationSolver.ResultsDiffer | src/equation.cpp:1892-1926 | otherwise an equation can fail to hold with the final values, and two ordered lists of the same equations can give different results |
| EquationSolver.SameValues | src/equation.cpp:1892-1926 | values do not depend on the order of the input, if no reference is touched later |
| EquationSolver.SameResults | src/equation.cpp:1892-1926 | nor does the set of results, under the same condition |
| HashTables.LowBits | src/hash.h:36 | the bucket of a code has the low bits of the code, negative codes included |
| HashTables.SplitLocation | src/hash.cpp:142-162 | when the table doubles an entry moves, if at all, from bucket n to bucket n plus half the buckets |
| HashTables.Deleted | src/hash.h:103-106 | the last entry takes the place of the removed one; all others stay |
| HashTables.DeletedKeeps | src/hash.h:103-106 | exactly that entry is gone and the keys are still all different |
| HashTables.SplitBucket | src/hash.cpp:142-162 | the entries that stay and those that move, none lost or doubled, while the bucket is changed under the loop |
| HashTables.HashTable.constructor | src/hash.cpp:74-92 | an empty table |
| HashTables.HashTable.TableSize | src/hash.cpp:74-92 | the largest power of two that is not above the size asked for, and 4 for sizes below 4 |
| HashTables.HashTable.Get | src/hash.cpp:265-276 | the value last put under the key, or nothing |
| HashTables.HashTable.Put | src/hash.cpp:192-231 | the map is updated at that key alone; the previous value is returned; count is the number of keys and fill that of buckets in use; the table doubles exactly when a bucket beyond three quarters of all comes into use |
| HashTables.HashTable.Expand | src/hash.cpp:130-163 | doubling the table changes no key and no value, and every entry is at home again |
| HashIterators.EachKeyOnce | src/hash.cpp:342-360 | going through the table meets every key of the map exactly once, with its value |
| HashIterators.HashIterator.ToFirst | src/hash.cpp:310-322 | the first entry, or nothing in an empty table |
| HashIterators.HashIterator.Next | src/hash.cpp:342-360 | from entry p to entry p + 1, the end reported after the last |
| MatrixNames.AtoiOfDecimal | src/matvec.cpp:168-190 | printed indices are read back, whatever follows the digits |
| MatrixNames.IndexMeans | src/matvec.cpp:168-190 | n[x,y] is the element of row x and column y counted from one, for all digits x and y |
| MatrixNames.StringMeans | src/matvec.cpp:148-152 | row and column are printed in this order, counted from one, without leading zeros |
| MatrixNames.MatrixNameRoundTrip | src/matvec.cpp:148-190 | isMatrixVector reads back what createMatrixString printed if and only if the name is not empty and has no bracket |
| MatrixVectors.MatVec.Set | src/matvec.cpp:127-131 | one element of every matrix is set, the others stay |
| MatrixVectors.MatVec.Get | src/matvec.cpp:136-144 | one element of every matrix |
| MatrixVectors.Export | src/equation.cpp:1992-2009 | a named vector for every element, and nothing else |
| MatrixVectors.MarkGroup | src/equation.cpp:2082-2118 | the first unmarked element of matrices and all that share its name and length are marked; largest indices found |
| MatrixVectors.CollectGroup | src/equation.cpp:2126-2137 | the marked vectors become elements of one matrix vector; stops at an index below one, which fails an assertion |
| MatrixVectors.ImportGroup | src/equation.cpp:2120-2155 | one group becomes one matrix vector of the largest indices, if and only if no index in it is below one |
| MatrixVectors.FindMatrixVectors | src/equation.cpp:2068-2160 | the loop terminates; exactly the first group is imported, if and only if no index in it is below one; otherwise an assertion fails |
| MatrixVectors.ImportedElement | src/equation.cpp:2126-2137 | a vector named n[x,y] becomes the elements of row x and column y counted from one, unless a later one has the same indices |
| MatrixVectors.AllTakenIff | src/equation.cpp:2068-2160 | every element is in a group if and only if all elements share one name and one length: the loop condition ends it after the first group |
| MatrixVectors.SecondGroupIsLost | src/equation.cpp:2068-2160 | of S[1,1] and Y[1,1] the second is not imported |
| MatrixVectors.ImportedIsExported | src/equation.cpp:1992-2009 | what was exported comes back with its name, size and elements |
| MatrixVectors.ThereAndBack | src/equation.cpp:1992-2160 | exporting a matrix vector and importing the vectors rebuilds it |

## Left out

- LuSteps.FinishedFactors: rounding is not modelled; over exact reals a pivot is missing only in a singular matrix.
- EqnSys.EquationSystem.SolveLu: the complex instantiation of the solver is not modelled, the real one is.
- InvertMatrix.InvertMatrix: the real instantiation stands for the complex one the harmonic balance solver uses.
- Iterative.EnsureDiagonalMna: the restarting loop is cut off after a given number of rounds, because its termination depends on the circuit; what it keeps is stated, and that it changes nothing when the diagonal has no zero, and that none is left if every zero has a row of its own to mend it, but not that the diagonal becomes non-zero in general: with no or several pairs in a column it need not, and a row exchanged in can be exchanged away again.
- NextCalls.SolveTwice: the first matrix is taken to be non-singular and without a zero on its diagonal, so that the first call reports nothing.
- EquationSolver.EquationsHold: a reference that is touched later is excluded, as the value then found may or may not be the final one.
- Iterative.SolveIterative: the check for values that are not finite has no counterpart in exact reals, and nothing is said about whether the iteration converges; a call without a new matrix needs the permutation of an earlier factorization.
- InvertMatrix.SolveColumn: real for complex numbers, as above.
- Householder.SolveQr: a consistent system with a singular matrix is solved only if the rows skipped happen to hold; `factorize_qrh`, its substitution and the least squares form are not modelled.
- The singular value decomposition and successive over-relaxation: their convergence is numerical.
- The multi-dimensional transform `_fft_nd`: it uses the opposite sign of the exponent from the one-dimensional one for the same argument.
- MatrixFft.VectorFft: the branch for several excitation frequencies calls that transform and is not modelled.
- MatrixFft.FastIsSlow: one excitation frequency, as the multi-dimensional transform is not modelled.
- SpectrumLayout.ExpandVector: one excitation frequency, for which the number of frequencies is twice that of the kept ones minus two.
- Harmonics.Frequencies.CollectFrequencies: the vector of angular frequencies made from the sets at the end is not modelled.
- The rest of the harmonic balance, AC and DC analyses, device models and integrators: they consist mostly of virtual calls.
- Expansion.Expander.ExpandSubcircuits: properties and environments of the elements are not copied; a node that is a template's and one that is a copy's are two classes; the result is the pair of the copies and the elements kept, in the order in which the code chains them.
- Expansion.Expander.CopyElement: properties of the element are not copied.
- Expansion.Expander.CopyInstance: the environment made for the instance is not modelled.
- Expansion.Expander.CopySubcircuits: properties and environments are not copied.
- SubCycles.CycleChecker.Validate: the messages printed are not modelled, and what is left in the list after a failure is only known to extend what was there.
- NameCollisions.HarmlessIff: names are any strings; which of them the scanner accepts is not part of this model.
- The netlist parser and the other checks of a netlist: a library that passes them is assumed, in particular that the numbers of nodes and ports agree.
- DerivativeSound.DerivativeIsSound: real values only; points where the definition of a function has no slope (a root or a quotient at 0, `abs`, `step` and `sign` at 0, a comparison) are outside of it; functions without an entry in the table return themselves and are not part of the language modelled.
- Taylor.DerivativeIsSlope: stated for the operators + - * sqr.
- The search for cyclic dependencies of equations: it looks further only after a cycle was found, so the reordering is what decides.
- EquationSolver.Solver.Evaluate: an equation's expression is a function of the values of its references; types, the conversion of results, equations that are skipped and exceptions while evaluating are not modelled.
- HashTables.HashTable.TableSize: sizes below 1, for which the loop does not end, are excluded.
- HashTables.HashTable.Put: a bucket that was never used and an empty one are the same; the hash code of a key is a parameter.
- `rehash` for shrinking and the deletion of keys: as written, shrinking does not store the bucket it makes and deletes the entries it moves.
- HashIterators.HashIterator.Next: iteration backwards is the mirror image.
- MatrixNames.MatrixNameRoundTrip: the buffer for a name is taken to be large enough.
- MatrixVectors.FindMatrixVectors: what is done after a failed assertion is not stated; dependencies of the vectors are not modelled.
- File formats, datasets on disk, logging, memory management and the table of the equation language's other functions.
