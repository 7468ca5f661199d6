/** Calls of the iterative solver without a new matrix. */
module NextCalls {
  import opened Arithmetic
  import opened EqnSys
  import opened Iterative
  import opened LinearAlgebra
  import opened LinearSystems
  import opened LuFactors
  import opened MatrixStore
  import opened RowOperations
  import opened StaleFactors

  // ------------------------------------------------------ a wrong answer

  /** Ones on the diagonal and one half elsewhere. */
  ghost function Halves(): Matrix {
    (i, j) => if i == j then 1.0 else 0.5
  }

  lemma SumOfTwo(f: Vector)
    ensures Sum(2, f) == f(0) + f(1)
  {
    assert Sum(2, f) == Sum(1, f) + f(1);
    assert Sum(1, f) == Sum(0, f) + f(0);
  }

  lemma TwoTerms(a: Matrix, i: int, x: Vector)
    ensures Sum(2, Times(Row(a, i), x)) == a(i, 0) * x(0) + a(i, 1) * x(1)
  {
    SumOfTwo(Times(Row(a, i), x));
  }

  /** The triangles of the halves multiply to another matrix. */
  lemma HalvesOverlap(m: Matrix)
    requires Agree(2, m, Halves())
    ensures Entry(Crout, m, 0, 0) == 1.0 && Entry(Crout, m, 0, 1) == 0.5
    ensures Entry(Crout, m, 1, 0) == 0.5 && Entry(Crout, m, 1, 1) == 1.25
  {
    var f := Times(Row(m, 1), Column(m, 1));
    assert Sum(1, f) == Sum(0, f) + f(0);
    assert m(0, 0) == 1.0 && m(0, 1) == 0.5 && m(1, 0) == 0.5 && m(1, 1) == 1.0;
    assert f(0) == 0.25;
  }

  /** Substitution with the halves for factors answers (1.25, -0.5) for the right hand
      side (1, 0), which solves another system. */
  lemma HalvesAnswerWrongly(m: Matrix, p: seq<int>, x: Vector, v: Vector)
    requires Agree(2, m, Halves()) && p == [0, 1] && Permutation(p) && v(0) == 1.0 && v(1) == 0.0
    requires Solves(2, Unpacked(Crout, m, p), x, v)
    ensures x(0) == 1.25 && x(1) == -0.5 && !Solves(2, m, x, v)
  {
    var u := Unpacked(Crout, m, p);
    HalvesOverlap(m);
    OnePlace(p, Position(p, 0), 0);
    OnePlace(p, Position(p, 1), 1);
    assert u(0, 0) == 1.0 && u(0, 1) == 0.5 && u(1, 0) == 0.5 && u(1, 1) == 1.25;
    TwoTerms(u, 0, x);
    TwoTerms(u, 1, x);
    TwoTerms(m, 1, x);
    assert Apply(2, u, x)(0) == v(0) && Apply(2, u, x)(1) == v(1);
    assert Apply(2, m, x)(1) == 0.125;
  }

  /** One step with the halves. */
  lemma HalvesStep(single: bool, m: Matrix, v: Vector, x: Vector, y: Vector)
    requires Agree(2, m, Halves()) && v(0) == 1.0 && v(1) == 0.0 && Swept(single, 2, m, v, x, y, 2)
    ensures x(0) == 1.0 - 0.5 * y(1) && x(1) == -0.5 * (if single then x(0) else y(0))
  {
    TwoTerms(m, 0, Mixed(single, 0, x, y));
    TwoTerms(m, 1, Mixed(single, 1, x, y));
    assert m(0, 0) == 1.0 && m(0, 1) == 0.5 && m(1, 0) == 0.5 && m(1, 1) == 1.0;
  }

  lemma Apart(x: Vector, y: Vector, abstol: real, reltol: real, r: nat)
    requires r < 2 && 0.0 <= abstol <= 0.01 && 0.0 <= reltol <= 0.01
    requires Abs(x(r) - y(r)) >= 0.25 && Abs(x(r)) <= 2.0
    ensures !Near(2, x, y, abstol, reltol)
  {
    ProductBounded(reltol, Abs(x(r)), 0.01, 2.0);
    assert Tolerance(x, abstol, reltol, r) <= 0.03;
  }

  /** From zeros, two steps with the halves do not converge. */
  lemma HalvesDoNotConverge(single: bool, m: Matrix, v: Vector, abstol: real, reltol: real, s: seq<seq<real>>, conv: bool)
    requires Agree(2, m, Halves()) && v(0) == 1.0 && v(1) == 0.0
    requires 0.0 <= abstol <= 0.01 && 0.0 <= reltol <= 0.01
    requires Iteration(single, 2, m, v, abstol, reltol, 2, s, conv) && s[0] == [0.0, 0.0]
    ensures !conv
  {
    var x, y := VectorOf(s[1]), VectorOf(s[0]);
    assert StepTo(single, 2, m, v, s, 1);
    HalvesStep(single, m, v, x, y);
    Apart(x, y, abstol, reltol, 0);
    if |s| > 2 {
      var z := VectorOf(s[2]);
      assert StepTo(single, 2, m, v, s, 2);
      HalvesStep(single, m, v, z, x);
      Apart(z, x, abstol, reltol, if single then 0 else 1);
    }
  }

  lemma HalvesAreNormalized(a: Matrix)
    requires Agree(2, a, Halves())
    ensures NonZeroDiagonal(2, a) && ColumnPeaks(2, a)
  {
    assert a(0, 0) == 1.0 && a(0, 1) == 0.5 && a(1, 0) == 0.5 && a(1, 1) == 1.0;
  }

  lemma HalvesStay(a: Matrix, b: Vector, m: Matrix, v: Vector)
    requires Agree(2, a, Halves()) && DividedTo(2, a, b, m, v, 2)
    ensures Agree(2, m, Halves()) && v(0) == b(0) && v(1) == b(1)
  {
    assert a(0, 0) == 1.0 && a(1, 1) == 1.0;
    assert RowDivided(2, a, b, m, v, 0) && RowDivided(2, a, b, m, v, 1);
    forall i, j | 0 <= i < 2 && 0 <= j < 2
      ensures m(i, j) == Halves()(i, j)
    {
      assert m(i, j) * a(i, i) == a(i, j);
    }
  }

  lemma HalvesUnsolved(a: Matrix, b: Vector, m: Matrix, v: Vector, x: Vector)
    requires Agree(2, a, Halves()) && Agree(2, m, Halves()) && v(0) == b(0) && v(1) == b(1)
    ensures Solves(2, a, x, b) ==> Solves(2, m, x, v)
  {
    if Solves(2, a, x, b) { SolvesOfAgreeing(2, a, m, x, b); }
  }

  /** A call without a new matrix that ends with a wrong answer and reports nothing:
      the halves are normalized and dominant, but neither method is done after two
      steps, and their triangles are no factors of them. */
  method FallsBackWrongly(eqns: EquationSystem, single: bool, abstol: real, reltol: real, rounds: nat) returns (ok: bool, conv: bool)
    requires eqns.Valid() && !eqns.update && eqns.N == 2 && Holds(eqns.A, Halves())
    requires eqns.rMap[..] == [0, 1] && eqns.X[..] == [0.0, 0.0] && eqns.B[..] == [1.0, 0.0]
    requires 0.0 <= abstol <= 0.01 && 0.0 <= reltol <= 0.01
    modifies eqns.A, eqns.B, eqns.X, eqns.rMap, eqns.nPvt, eqns`estack
    ensures ok && !conv && eqns.estack == old(eqns.estack) && eqns.X[..] == [1.25, -0.5]
    ensures !Solves(2, old(MatrixOf(eqns.A)), VectorOf(eqns.X[..]), VectorOf(old(eqns.B[..])))
  {
    ghost var a, b := MatrixOf(eqns.A), VectorOf(eqns.B[..]);
    InPlaceIsPermutation(2);
    assert InPlace(2) == [0, 1];
    HalvesAreNormalized(a);
    hide NonZeroDiagonal, ColumnPeaks, Kept, UnitDiagonal, Iteration, DividedTo, SmallResidual, SameAnswers, OwnFactors, Permutation, Agree, MatrixOf, VectorOf;
    ghost var m, s;
    ok, conv, m, s := SolveIterative(eqns, single, abstol, reltol, rounds);
    HalvesEnd(single, abstol, reltol, s, conv, a, b, m, eqns.B[..], eqns.X[..]);
  }

  lemma HalvesEnd(single: bool, abstol: real, reltol: real, s: seq<seq<real>>, conv: bool, a: Matrix, b: Vector, m: Matrix, v: seq<real>, x: seq<real>)
    requires Agree(2, a, Halves()) && b(0) == 1.0 && b(1) == 0.0 && |x| == |v| == 2
    requires DividedTo(2, a, b, m, VectorOf(v), 2) && 0.0 <= abstol <= 0.01 && 0.0 <= reltol <= 0.01
    requires Iteration(single, 2, m, VectorOf(v), abstol, reltol, 2, s, conv) && s[0] == [0.0, 0.0]
    requires !conv ==> SolvedStale(2, a, b, m, VectorOf(v), VectorOf(x), [0, 1])
    ensures !conv && x == [1.25, -0.5] && !Solves(2, a, VectorOf(x), b)
  {
    HalvesStay(a, b, m, VectorOf(v));
    hide DividedTo, Iteration, Solves, SameAnswers, OwnFactors;
    HalvesDoNotConverge(single, m, VectorOf(v), abstol, reltol, s, conv);
    HalvesAnswerWrongly(m, [0, 1], VectorOf(x), VectorOf(v));
    HalvesUnsolved(a, b, m, VectorOf(v), VectorOf(x));
  }

  // ------------------------------------------------------ two calls in turn

  /** The normalized matrix answers for the one it was made from, whatever the right
      hand side, exactly if the diagonal was 1 already. */
  lemma NormalizedRightIff(n: nat, a: Matrix, b: Vector, m: Matrix, v: Vector)
    requires DividedTo(n, a, b, m, v, n) && UnitDiagonal(m, n)
    ensures SameAnswers(n, m, a) <==> UnitDiagonal(a, n)
  {
    SameAnswersIff(n, m, a);
    if Agree(n, m, a) {
      forall k | 0 <= k < n
        ensures a(k, k) == 1.0
      {
        assert m(k, k) == a(k, k);
      }
    }
    if UnitDiagonal(a, n) {
      forall r, c | 0 <= r < n && 0 <= c < n
        ensures m(r, c) == a(r, c)
      {
        assert RowDivided(n, a, b, m, v, r);
        assert m(r, c) * a(r, r) == a(r, c);
      }
    }
  }

  /** What the first call leaves in place of the matrix a: the normalized matrix m if
      it converged, otherwise the factors of m.  As a matrix for other right hand
      sides this is right exactly under the condition stated. */
  ghost predicate LeftBehind(n: nat, a: Matrix, m: Matrix, w: Matrix, p: seq<int>, conv: bool) {
    if conv then
      && Agree(n, m, w) && (SameAnswers(n, w, a) <==> Agree(n, m, a))
      && (NonZeroDiagonal(n, a) && ColumnPeaks(n, a) ==> (SameAnswers(n, w, a) <==> UnitDiagonal(a, n)))
    else
      |p| == n && Factors(Crout, n, w, p, m) && (SameAnswers(n, w, m) <==> OwnFactors(n, w, p))
  }

  lemma ConvergedLeaves(n: nat, a: Matrix, b: Vector, m: Matrix, v: Vector, w: Matrix, p: seq<int>)
    requires Agree(n, m, w) && UnitDiagonal(m, n)
    requires NonZeroDiagonal(n, a) && ColumnPeaks(n, a) ==> DividedTo(n, a, b, m, v, n)
    ensures LeftBehind(n, a, m, w, p, true)
  {
    hide NonZeroDiagonal, ColumnPeaks;
    SameAnswersIff(n, w, a);
    SameAnswersIff(n, m, a);
    if NonZeroDiagonal(n, a) && ColumnPeaks(n, a) { NormalizedRightIff(n, a, b, m, v); }
  }

  lemma FactorsLeft(n: nat, a: Matrix, m: Matrix, w: Matrix, p: seq<int>)
    requires |p| == n && Permutation(p) && Factors(Crout, n, w, p, m)
    ensures LeftBehind(n, a, m, w, p, false)
  {
    FactorsRightIff(n, w, p, m);
  }

  /** A call without a new matrix takes the matrix in place and the right hand side
      as it is passed. */
  method CallAgain(eqns: EquationSystem, nB: array<real>, single: bool, abstol: real, reltol: real, rounds: nat)
    returns (ok: bool, conv: bool, ghost u: Matrix)
    requires eqns.Valid() && Permutation(eqns.rMap[..]) && nB.Length == eqns.N
    modifies eqns, eqns.A, eqns.X, eqns.rMap, eqns.nPvt
    ensures eqns.N == old(eqns.N) && eqns.B.Length == eqns.X.Length == eqns.N
    ensures ok ==> Kept(eqns.N, old(MatrixOf(eqns.A)), VectorOf(old(nB[..])), u, VectorOf(eqns.B[..])) && UnitDiagonal(u, eqns.N)
    ensures ok && conv ==> SmallResidual(eqns.N, u, VectorOf(eqns.B[..]), VectorOf(eqns.X[..]), abstol, reltol)
  {
    hide NonZeroDiagonal, ColumnPeaks, Kept, UnitDiagonal, Iteration, DividedTo, SmallResidual, SolvedStale, SolvedAnew, Permutation, VectorOf, MatrixOf;
    eqns.PassEquationSys(null, eqns.X, nB);
    ghost var s;
    ok, conv, u, s := SolveIterative(eqns, single, abstol, reltol, rounds);
  }

  /** A call with a new matrix and one more without: the second one takes what the
      first left behind for its matrix, and the new right hand side as it is. */
  method SolveTwice(eqns: EquationSystem, nB: array<real>, single: bool, abstol: real, reltol: real, rounds: nat)
    returns (ok: bool, conv: bool, again: bool, ghost m: Matrix, ghost w: Matrix, ghost u: Matrix, ghost p: seq<int>)
    requires eqns.Valid() && eqns.update && Permutation(eqns.rMap[..])
    requires NonZeroDiagonal(eqns.N, MatrixOf(eqns.A)) && !Singular(eqns.N, MatrixOf(eqns.A))
    requires nB.Length == eqns.N && nB != eqns.B && nB != eqns.X && nB != eqns.nPvt
    modifies eqns, eqns.A, eqns.B, eqns.X, eqns.rMap, eqns.nPvt
    ensures LeftBehind(old(eqns.N), old(MatrixOf(eqns.A)), m, w, p, conv)
    ensures eqns.N == old(eqns.N) && eqns.B.Length == eqns.X.Length == eqns.N
    ensures ok ==> Kept(eqns.N, w, VectorOf(old(nB[..])), u, VectorOf(eqns.B[..])) && UnitDiagonal(u, eqns.N)
    ensures ok && again ==> SmallResidual(eqns.N, u, VectorOf(eqns.B[..]), VectorOf(eqns.X[..]), abstol, reltol)
  {
    conv, m, w, p := FirstCall(eqns, single, abstol, reltol, rounds);
    hide NonZeroDiagonal, Kept, UnitDiagonal, SmallResidual, Permutation, VectorOf, MatrixOf, Singular, LeftBehind;
    ok, again, u := CallAgain(eqns, nB, single, abstol, reltol, rounds);
  }

  method FirstCall(eqns: EquationSystem, single: bool, abstol: real, reltol: real, rounds: nat)
    returns (conv: bool, ghost m: Matrix, ghost w: Matrix, ghost p: seq<int>)
    requires eqns.Valid() && eqns.update && Permutation(eqns.rMap[..])
    requires NonZeroDiagonal(eqns.N, MatrixOf(eqns.A)) && !Singular(eqns.N, MatrixOf(eqns.A))
    modifies eqns.A, eqns.B, eqns.X, eqns.rMap, eqns.nPvt, eqns`estack
    ensures eqns.Valid() && w == MatrixOf(eqns.A) && p == eqns.rMap[..] && Permutation(p)
    ensures LeftBehind(eqns.N, old(MatrixOf(eqns.A)), m, w, p, conv)
  {
    ghost var a, b, n := MatrixOf(eqns.A), VectorOf(eqns.B[..]), eqns.N;
    hide NonZeroDiagonal, ColumnPeaks, Kept, UnitDiagonal, Iteration, DividedTo, SmallResidual, SolvedStale, Permutation, Factors, VectorOf, Singular, LeftBehind;
    var ok;
    ghost var s;
    ok, conv, m, s := SolveIterative(eqns, single, abstol, reltol, rounds);
    w, p := MatrixOf(eqns.A), eqns.rMap[..];
    if conv {
      ConvergedLeaves(n, a, b, m, VectorOf(eqns.B[..]), w, p);
    } else {
      FactorsLeft(n, a, m, w, p);
    }
  }
}
