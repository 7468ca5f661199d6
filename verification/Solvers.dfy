/** The algorithms run side by side on copies of one system: they give up on the same
    matrices and leave the same solution. */
module Solvers {
  import opened Elimination
  import opened EqnSys
  import opened Householder
  import opened LinearAlgebra
  import opened LinearSystems
  import opened LuFactors
  import opened MatrixStore

  /** Two arrays with solutions of one system are the same. */
  lemma SameSolution(n: nat, a: Matrix, b: Vector, c: Matrix, d: Vector, x: seq<real>, y: seq<real>)
    requires |x| == n == |y| && Agree(n, a, c) && !Singular(n, a) && forall i | 0 <= i < n :: b(i) == d(i)
    requires Solves(n, a, VectorOf(x), b) && Solves(n, c, VectorOf(y), d)
    ensures x == y
  {
    SolvesOfAgreeing(n, c, a, VectorOf(y), d);
    SolversAgree(n, a, x, y, b);
  }

  /** The two arrays hold one matrix. */
  lemma SameMatrix(n: nat, A: array2<real>, C: array2<real>)
    requires A.Length0 == A.Length1 == n && C.Length0 == C.Length1 == n && Holds(C, MatrixOf(A))
    ensures Agree(n, MatrixOf(A), MatrixOf(C)) && (Singular(n, MatrixOf(A)) <==> Singular(n, MatrixOf(C)))
  {
    SingularOfAgreeing(n, MatrixOf(A), MatrixOf(C));
  }

  method GaussIsGaussJordan(A: array2<real>, B: array<real>, X: array<real>, C: array2<real>, D: array<real>, Y: array<real>)
    returns (ok: bool, too: bool)
    requires A.Length0 == A.Length1 == B.Length == X.Length == C.Length0 == C.Length1 == D.Length == Y.Length
    requires A != C && X != B && Y != D && B != D && B != Y && X != D && X != Y
    requires Holds(C, MatrixOf(A)) && B[..] == D[..]
    modifies A, B, X, C, D, Y
    ensures ok == too && (ok ==> X[..] == Y[..])
  {
    ghost var n, a, b, c, d := X.Length, MatrixOf(A), VectorOf(B[..]), MatrixOf(C), VectorOf(D[..]);
    SameMatrix(n, A, C);
    hide Singular, Solves, MatrixOf, VectorOf, Agree;
    ok := SolveGauss(A, B, X);
    too := SolveGaussJordan(C, D, Y);
    if ok { SameSolution(n, a, b, c, d, X[..], Y[..]); }
  }

  method GaussIsLu(A: array2<real>, B: array<real>, X: array<real>, eqns: EquationSystem, s: Scheme) returns (ok: bool)
    requires A.Length0 == A.Length1 == B.Length == X.Length == eqns.N && X != B
    requires eqns.Valid() && eqns.update && A != eqns.A
    requires {B, X} !! {eqns.B, eqns.X, eqns.nPvt}
    requires Holds(eqns.A, MatrixOf(A)) && B[..] == eqns.B[..]
    modifies A, B, X, eqns.A, eqns.rMap, eqns.nPvt, eqns.X, eqns`estack
    ensures ok <==> eqns.estack == old(eqns.estack)
    ensures ok ==> X[..] == eqns.X[..]
  {
    ghost var n, a, b, c, d := X.Length, MatrixOf(A), VectorOf(B[..]), MatrixOf(eqns.A), VectorOf(eqns.B[..]);
    SameMatrix(n, A, eqns.A);
    hide Singular, Solves, VectorOf, Factors, Permutation;
    ok := SolveGauss(A, B, X);
    assert MatrixOf(eqns.A) == c;
    eqns.SolveLu(s, c);
    if ok { SameSolution(n, a, b, c, d, X[..], eqns.X[..]); }
  }

  method CroutIsDoolittle(eqns: EquationSystem, other: EquationSystem)
    requires eqns.Valid() && other.Valid() && eqns.update && other.update && eqns.N == other.N
    requires eqns != other && eqns.A != other.A && eqns.rMap != other.rMap
    requires {eqns.B, eqns.X, eqns.nPvt} !! {other.B, other.X, other.nPvt}
    requires Holds(other.A, MatrixOf(eqns.A)) && eqns.B[..] == other.B[..]
    modifies eqns.A, eqns.rMap, eqns.nPvt, eqns.X, eqns`estack
    modifies other.A, other.rMap, other.nPvt, other.X, other`estack
    ensures eqns.estack == old(eqns.estack) <==> other.estack == old(other.estack)
    ensures eqns.estack == old(eqns.estack) ==> eqns.X[..] == other.X[..]
  {
    ghost var n, a, b, c, d := eqns.N, MatrixOf(eqns.A), VectorOf(eqns.B[..]), MatrixOf(other.A), VectorOf(other.B[..]);
    SameMatrix(n, eqns.A, other.A);
    hide Singular, Solves, VectorOf, Factors, Permutation;
    eqns.SolveLu(Crout, a);
    assert MatrixOf(other.A) == c;
    other.SolveLu(Doolittle, c);
    if eqns.estack == old(eqns.estack) { SameSolution(n, a, b, c, d, eqns.X[..], other.X[..]); }
  }

  method GaussIsQr(A: array2<real>, B: array<real>, X: array<real>, e: Lengths, C: array2<real>, D: array<real>, Y: array<real>,
                   T: array<real>, nPvt: array<real>, cMap: array<int>, tiny: real, eps: real) returns (ok: bool, ghost m: Matrix)
    requires Lawful(e) && eps >= 0.0
    requires A.Length0 == A.Length1 == B.Length == X.Length && A != C && X != B
    requires X.Length == C.Length0 == C.Length1 == D.Length == Y.Length == T.Length == nPvt.Length == cMap.Length
    requires T != nPvt && D != T && D != nPvt && Y != D && Y != T && {B, X} !! {D, Y, T, nPvt}
    requires Holds(C, MatrixOf(A)) && B[..] == D[..]
    modifies A, B, X, C, D, Y, T, nPvt, cMap
    ensures Agree(X.Length, m, MatrixOf(C))
    ensures ok <==> forall r | 0 <= r < X.Length :: m(r, r) != 0.0
    ensures ok && ClearDiagonal(m, X.Length, eps) ==> X[..] == Y[..]
  {
    ghost var n, a, b, c, d := X.Length, MatrixOf(A), VectorOf(B[..]), MatrixOf(C), VectorOf(D[..]);
    SameMatrix(n, A, C);
    hide Singular, Solves, VectorOf, ClearDiagonal, Lawful;
    ok := SolveGauss(A, B, X);
    assert MatrixOf(C) == c;
    ghost var run, ms;
    m, run, ms := SolveQr(e, C, D, Y, T, nPvt, cMap, tiny, eps);
    if ok && ClearDiagonal(m, n, eps) { SameSolution(n, a, b, c, d, X[..], Y[..]); }
  }
}
