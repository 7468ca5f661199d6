/** The harmonic balance solver's matrix inversion: one factorization, one
    substitution per column. */
module InvertMatrix {
  import opened LinearAlgebra
  import opened LinearSystems
  import opened LuFactors
  import opened LuSteps
  import opened MatrixStore
  import opened EqnSys

  /** H becomes the inverse of A, from both sides, unless a pivot is missing;
      then it becomes the inverse of A with virtual resistances.  A is left
      holding its factors. */
  method InvertMatrix(A: array2<real>, H: array2<real>, tiny: real) returns (estack: seq<int>, ghost p: seq<int>)
    requires A.Length0 == A.Length1 == H.Length0 == H.Length1 && A != H && tiny > 0.0
    modifies A, H
    ensures Inverse(A.Length1, Perturbed(old(MatrixOf(A)), tiny, p, estack), MatrixOf(H))
    ensures estack == [] <==> !Singular(A.Length1, old(MatrixOf(A)))
    ensures estack == [] ==> Inverse(A.Length1, old(MatrixOf(A)), MatrixOf(H))
    ensures estack == [] ==> Inverse(A.Length1, MatrixOf(H), old(MatrixOf(A)))
  {
    ghost var a := MatrixOf(A);
    var eqns := new EquationSystem(tiny);
    var n := A.Length1;
    var x, z := new real[n], new real[n];
    eqns.PassEquationSys(A, x, z);
    eqns.FactorizeLu(Crout);
    estack, p := eqns.estack, eqns.rMap[..];
    ghost var e := Perturbed(a, tiny, p, estack);
    InvertColumns(eqns, A, H, x, z, e);
    InverseFromColumns(n, e, MatrixOf(H));
    if estack == [] {
      FactoredIsRegular(Crout, n, MatrixOf(A), p, e);
      RightInverseIsLeft(n, e, MatrixOf(H));
      InverseOfAgreeing(n, e, a, MatrixOf(H));
    }
  }

  method InvertColumns(eqns: EquationSystem, A: array2<real>, H: array2<real>, x: array<real>, z: array<real>, ghost e: Matrix)
    requires Ready(eqns, A, x, z, e) && A != H && H.Length0 == H.Length1 == eqns.N
    modifies eqns, H, x, z
    ensures Inverted(x.Length, e, MatrixOf(H), x.Length)
    ensures Ready(eqns, A, x, z, e) && eqns.rMap == old(eqns.rMap)
  {
    ghost var rMap, nPvt := eqns.rMap, eqns.nPvt;
    for c := 0 to eqns.N
      invariant Ready(eqns, A, x, z, e) && eqns.rMap == rMap && eqns.nPvt == nPvt
      invariant Inverted(x.Length, e, MatrixOf(H), c)
    {
      SolveColumn(eqns, A, x, z, c, e);
      StoreColumn(H, c, x, e);
    }
  }

  /** The solver holds the factors of e in A. */
  ghost predicate Ready(eqns: EquationSystem, A: array2<real>, x: array<real>, z: array<real>, e: Matrix)
    reads eqns, A, eqns.rMap
  {
    && eqns.Valid() && eqns.A == A && eqns.N == x.Length == z.Length && x != z && x != eqns.nPvt
    && Permutation(eqns.rMap[..]) && Factors(Crout, eqns.N, MatrixOf(A), eqns.rMap[..], e)
  }

  /** The first c columns of h are those of the inverse of e. */
  ghost predicate Inverted(n: nat, e: Matrix, h: Matrix, c: nat) {
    forall k | 0 <= k < c :: Solves(n, e, Column(h, k), Unit(k))
  }

  /** Solves for column c of the inverse. */
  method SolveColumn(eqns: EquationSystem, A: array2<real>, x: array<real>, z: array<real>, c: nat, ghost e: Matrix)
    requires Ready(eqns, A, x, z, e) && c < eqns.N
    modifies eqns, x, z
    ensures Ready(eqns, A, x, z, e) && eqns.N == old(eqns.N)
    ensures eqns.rMap == old(eqns.rMap) && eqns.nPvt == old(eqns.nPvt)
    ensures Solves(eqns.N, e, VectorOf(x[..]), Unit(c))
  {
    var n := eqns.N;
    ghost var p := eqns.rMap[..];
    forall i | 0 <= i < n { z[i] := 0.0; }
    z[c] := 1.0;
    eqns.PassEquationSys(A, x, z);
    assert eqns.rMap[..] == p;
    eqns.SubstituteLu(Crout, e);
    assert eqns.rMap[..] == p;
    SolvesOfEqual(n, e, VectorOf(x[..]), VectorOf(x[..]), VectorOf(eqns.B[..]), Unit(c));
  }

  method StoreColumn(H: array2<real>, c: nat, x: array<real>, ghost e: Matrix)
    requires c < H.Length0 == H.Length1 == x.Length
    requires Inverted(x.Length, e, MatrixOf(H), c) && Solves(x.Length, e, VectorOf(x[..]), Unit(c))
    modifies H
    ensures Inverted(x.Length, e, MatrixOf(H), c + 1)
  {
    ghost var h, v := MatrixOf(H), x[..];
    forall r | 0 <= r < x.Length { H[r, c] := x[r]; }
    NextColumn(x.Length, e, h, MatrixOf(H), VectorOf(v), c);
  }

  lemma NextColumn(n: nat, e: Matrix, h: Matrix, w: Matrix, x: Vector, c: nat)
    requires c < n && Inverted(n, e, h, c) && Solves(n, e, x, Unit(c))
    requires forall i, j | 0 <= i < n && 0 <= j < n :: w(i, j) == if j == c then x(i) else h(i, j)
    ensures Inverted(n, e, w, c + 1)
  {
    forall k | 0 <= k <= c
      ensures Solves(n, e, Column(w, k), Unit(k))
    {
      if k < c {
        SolvesOfEqual(n, e, Column(h, k), Column(w, k), Unit(k), Unit(k));
      } else {
        SolvesOfEqual(n, e, x, Column(w, k), Unit(k), Unit(k));
      }
    }
  }

  lemma SolvesOfEqual(n: nat, a: Matrix, x: Vector, y: Vector, b: Vector, d: Vector)
    requires Solves(n, a, x, b) && forall i | 0 <= i < n :: x(i) == y(i) && b(i) == d(i)
    ensures Solves(n, a, y, d)
  {
    forall i | 0 <= i < n
      ensures Apply(n, a, y)(i) == d(i)
    {
      ApplyCongruence(n, a, i, a, i, x, y);
    }
  }

  lemma InverseOfAgreeing(n: nat, a: Matrix, e: Matrix, h: Matrix)
    requires Agree(n, a, e) && Inverse(n, a, h) && Inverse(n, h, a)
    ensures Inverse(n, e, h) && Inverse(n, h, e)
  {
    forall i, j | 0 <= i < n && 0 <= j < n
      ensures Multiply(n, a, h)(i, j) == Multiply(n, e, h)(i, j)
      ensures Multiply(n, h, a)(i, j) == Multiply(n, h, e)(i, j)
    {
      SumCongruence(n, Times(Row(a, i), Column(h, j)), Times(Row(e, i), Column(h, j)));
      SumCongruence(n, Times(Row(h, i), Column(a, j)), Times(Row(h, i), Column(e, j)));
    }
  }
}
