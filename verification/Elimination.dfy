/** Gaussian and Gauss-Jordan elimination, in place. */
module Elimination {
  import opened Arithmetic
  import opened LinearAlgebra
  import opened LinearSystems
  import opened LuFactors
  import opened MatrixStore
  import opened EqnSys
  import opened RowOperations

  /** The element of largest magnitude in column i, from row i on. */
  method FindPivot(A: array2<real>, i: nat, ghost m: Matrix) returns (pivot: nat, MaxPivot: real)
    requires A.Length0 == A.Length1 && i < A.Length0 && Holds(A, m)
    ensures i <= pivot < A.Length0 && MaxPivot >= 0.0
    ensures forall p | i <= p < A.Length0 :: Abs(m(p, i)) <= MaxPivot
    ensures MaxPivot > 0.0 ==> MaxPivot == Abs(m(pivot, i))
  {
    MaxPivot, pivot := 0.0, i;
    for r := i to A.Length0
      invariant i <= pivot < A.Length0 && MaxPivot >= 0.0
      invariant forall p | i <= p < r :: Abs(m(p, i)) <= MaxPivot
      invariant MaxPivot > 0.0 ==> MaxPivot == Abs(m(pivot, i))
    {
      assert A[r, i] == m(r, i);
      if Abs(A[r, i]) > MaxPivot {
        MaxPivot := Abs(A[r, i]);
        pivot := r;
      }
    }
  }

  method ExchangeRows(A: array2<real>, B: array<real>, i: nat, q: nat, ghost m: Matrix)
    requires A.Length0 == A.Length1 == B.Length && i < B.Length && q < B.Length && Holds(A, m)
    modifies A, B
    ensures Holds(A, SwapRows(m, i, q))
    ensures Same(B.Length, VectorOf(B[..]), SwapEntries(VectorOf(old(B[..])), i, q))
  {
    forall r, c | 0 <= r < A.Length0 && 0 <= c < A.Length1 {
      A[r, c] := A[if r == i then q else if r == q then i else r, c];
    }
    B[i], B[q] := B[q], B[i];
  }

  /** Brings the largest element of column i to the diagonal. */
  method Pivot(A: array2<real>, B: array<real>, i: nat, ghost m: Matrix) returns (found: bool, ghost w: Matrix, ghost q: nat)
    requires A.Length0 == A.Length1 == B.Length && i < B.Length && Holds(A, m)
    modifies A, B
    ensures found ==> i <= q < B.Length && Holds(A, w) && w(i, i) != 0.0
    ensures found ==> Agree(B.Length, w, SwapRows(m, i, q))
    ensures found ==> Same(B.Length, VectorOf(B[..]), SwapEntries(VectorOf(old(B[..])), i, q))
    ensures !found ==> forall p | i <= p < B.Length :: m(p, i) == 0.0
  {
    var pivot, MaxPivot;
    pivot, MaxPivot := FindPivot(A, i, m);
    found, w, q := MaxPivot != 0.0, m, pivot;
    if found && i != pivot {
      ExchangeRows(A, B, i, pivot, m);
      w := SwapRows(m, i, pivot);
    }
  }

  /** Subtracts row i from row r, f times, to the right of column i. */
  method SubtractRow(A: array2<real>, B: array<real>, i: nat, r: nat, f: real, ghost m: Matrix)
    requires A.Length0 == A.Length1 == B.Length && i < B.Length && r < B.Length && r != i && Holds(A, m)
    modifies A, B
    ensures Holds(A, Eliminated(m, i, r, f))
    ensures Same(B.Length, VectorOf(B[..]), AddEntry(VectorOf(old(B[..])), r, i, f))
  {
    ghost var w, u := m, Eliminated(m, i, r, f);
    for c := i + 1 to A.Length1
      invariant Holds(A, w) && B[..] == old(B[..])
      invariant forall p, k :: w(p, k) == if k < c then u(p, k) else m(p, k)
    {
      SubtractElement(A, i, r, c, f, w);
      assert w(i, c) == m(i, c) && w(r, c) == m(r, c);
      w := Upd(w, r, c, w(r, c) - f * w(i, c));
    }
    SubtractEntry(B, i, r, f);
  }

  method SubtractElement(A: array2<real>, i: nat, r: nat, c: nat, f: real, ghost w: Matrix)
    requires i < A.Length0 && r < A.Length0 && c < A.Length1 && Holds(A, w)
    modifies A
    ensures Holds(A, Upd(w, r, c, w(r, c) - f * w(i, c)))
  {
    Store(A, r, c, A[r, c] - f * A[i, c], w);
  }

  method SubtractEntry(B: array<real>, i: nat, r: nat, f: real)
    requires i < B.Length && r < B.Length
    modifies B
    ensures Same(B.Length, VectorOf(B[..]), AddEntry(VectorOf(old(B[..])), r, i, f))
  {
    B[r] := B[r] - f * B[i];
  }

  /** Clears column i below the diagonal. */
  method ClearColumn(A: array2<real>, B: array<real>, i: nat, ghost m: Matrix, ghost a: Matrix, ghost b: Vector) returns (ghost w: Matrix)
    requires A.Length0 == A.Length1 == B.Length && i < B.Length && Holds(A, m) && m(i, i) != 0.0 && DiagonalFree(m, i)
    requires Kept(B.Length, a, b, Cleared(m, i, i + 1), VectorOf(B[..]))
    modifies A, B
    ensures Holds(A, w) && DiagonalFree(w, i + 1)
    ensures Kept(B.Length, a, b, Cleared(w, i + 1, i + 2), VectorOf(B[..]))
  {
    hide Kept, Cleared;
    w := m;
    ghost var n := B.Length;
    for r := i + 1 to A.Length0
      invariant Holds(A, w) && DiagonalFree(w, i + 1)
      invariant Kept(n, a, b, Cleared(w, i, r), VectorOf(B[..]))
    {
      var f := A[r, i] / A[i, i];
      QuotientTimes(A[r, i], A[i, i]);
      ghost var v := VectorOf(B[..]);
      SubtractRow(A, B, i, r, f, w);
      AddKept(n, a, b, Cleared(w, i, r), v, r, i, f);
      ClearedStep(n, w, i, r, f);
      AgreeingKept(n, a, b, AddRow(Cleared(w, i, r), r, i, f), AddEntry(v, r, i, f),
                   Cleared(Eliminated(w, i, r, f), i, r + 1), VectorOf(B[..]));
      w := Eliminated(w, i, r, f);
    }
    ClearedNext(n, w, i);
    AgreeingKept(n, a, b, Cleared(w, i, n), VectorOf(B[..]), Cleared(w, i + 1, i + 2), VectorOf(B[..]));
  }

  /** Triangulates the matrix; stops at the first column without a pivot. */
  method Triangulate(A: array2<real>, B: array<real>, ghost a: Matrix) returns (ok: bool, ghost m: Matrix)
    requires A.Length0 == A.Length1 == B.Length && Holds(A, a)
    modifies A, B
    ensures ok <==> !Singular(B.Length, a)
    ensures ok ==> Holds(A, m) && DiagonalFree(m, B.Length)
    ensures ok ==> Kept(B.Length, a, VectorOf(old(B[..])), Upper(Doolittle, m), VectorOf(B[..]))
  {
    ghost var n, b := B.Length, VectorOf(B[..]);
    m := a;
    KeptAtStart(n, a, b);
    for i := 0 to A.Length0
      invariant Holds(A, m) && DiagonalFree(m, i)
      invariant Kept(n, a, b, Cleared(m, i, i + 1), VectorOf(B[..]))
    {
      hide Kept, Cleared;
      ghost var v := VectorOf(B[..]);
      var found;
      ghost var w, q;
      found, w, q := Pivot(A, B, i, m);
      if !found {
        ClearedSingular(n, m, i);
        SingularKept(n, a, b, Cleared(m, i, i + 1), v);
        return false, m;
      }
      PivotKept(n, a, b, m, v, w, VectorOf(B[..]), i, q);
      m := ClearColumn(A, B, i, w, a, b);
    }
    ok := true;
    ClearedIsUpper(n, m);
    AgreeingKept(n, a, b, Cleared(m, n, n + 1), VectorOf(B[..]), Upper(Doolittle, m), VectorOf(B[..]));
    UpperRegular(n, m);
    SingularKept(n, a, b, Upper(Doolittle, m), VectorOf(B[..]));
  }

  lemma KeptAtStart(n: nat, a: Matrix, b: Vector)
    ensures Kept(n, a, b, Cleared(a, 0, 1), b) && Kept(n, a, b, Before(a, 0), b)
  {
    assert Kept(n, a, b, a, b);
    AgreeingKept(n, a, b, a, b, Cleared(a, 0, 1), b);
    AgreeingKept(n, a, b, a, b, Before(a, 0), b);
  }

  lemma PivotKept(n: nat, a: Matrix, b: Vector, m: Matrix, v: Vector, w: Matrix, z: Vector, i: nat, q: nat)
    requires Kept(n, a, b, Cleared(m, i, i + 1), v) && i <= q < n
    requires Agree(n, w, SwapRows(m, i, q)) && Same(n, z, SwapEntries(v, i, q)) && DiagonalFree(m, i)
    ensures Kept(n, a, b, Cleared(w, i, i + 1), z) && DiagonalFree(w, i)
  {
    SwapKept(n, a, b, Cleared(m, i, i + 1), v, i, q);
    ClearedSwap(n, m, i, q);
    AgreeingKept(n, a, b, SwapRows(Cleared(m, i, i + 1), i, q), SwapEntries(v, i, q), Cleared(w, i, i + 1), z);
  }

  /** Backward substitution from the right hand side. */
  method SubstituteBack(A: array2<real>, B: array<real>, X: array<real>, ghost m: Matrix)
    requires A.Length0 == A.Length1 == B.Length == X.Length && X != B && Holds(A, m) && DiagonalFree(m, X.Length)
    modifies X
    ensures Solves(X.Length, Upper(Doolittle, m), VectorOf(X[..]), VectorOf(B[..]))
  {
    ghost var n, b := X.Length, VectorOf(B[..]);
    var i := X.Length;
    while i > 0
      invariant 0 <= i <= n && B[..] == old(B[..])
      invariant UpperSolved(Doolittle, m, n, VectorOf(X[..]), b, i)
    {
      hide UpperSolved, Above;
      i := i - 1;
      var f := BackwardSum(A, B, X, i, m);
      ghost var x := VectorOf(X[..]);
      X[i] := f / A[i, i];
      UpperNext(Doolittle, m, n, x, VectorOf(X[..]), b, i, f);
    }
    UpperRows(Doolittle, m, n, VectorOf(X[..]), b);
  }

  method BackwardSum(A: array2<real>, B: array<real>, X: array<real>, i: nat, ghost m: Matrix) returns (f: real)
    requires A.Length0 == A.Length1 == B.Length == X.Length && i < X.Length && Holds(A, m)
    ensures f == B[i] - Sum(X.Length, Times(Row(Above(m), i), VectorOf(X[..])))
  {
    f := B[i];
    SumZero(i + 1, Times(Row(Above(m), i), VectorOf(X[..])));
    for c := i + 1 to A.Length1
      invariant f == B[i] - Sum(c, Times(Row(Above(m), i), VectorOf(X[..])))
    {
      f := f - A[i, c] * X[c];
      TimesLast(c, Row(Above(m), i), VectorOf(X[..]));
    }
  }

  /** Gaussian elimination: stops at a missing pivot exactly for singular
      matrices, and otherwise finds the solution. */
  method SolveGauss(A: array2<real>, B: array<real>, X: array<real>) returns (ok: bool)
    requires A.Length0 == A.Length1 == B.Length == X.Length && X != B
    modifies A, B, X
    ensures ok <==> !Singular(X.Length, old(MatrixOf(A)))
    ensures ok ==> Solves(X.Length, old(MatrixOf(A)), VectorOf(X[..]), VectorOf(old(B[..])))
  {
    ghost var m;
    ghost var a := MatrixOf(A);
    ok, m := Triangulate(A, B, a);
    if ok { SubstituteBack(A, B, X, m); }
  }

  // ------------------------------------------------------------- Gauss-Jordan

  /** Divides row i by its diagonal element, to the right of the diagonal. */
  method NormalizeRow(A: array2<real>, B: array<real>, i: nat, ghost m: Matrix) returns (ghost g: real)
    requires A.Length0 == A.Length1 == B.Length && i < B.Length && Holds(A, m) && m(i, i) != 0.0
    modifies A, B
    ensures g != 0.0 && m(i, i) * g == 1.0 && Holds(A, Normalized(m, i, g))
    ensures Same(B.Length, VectorOf(B[..]), ScaleEntry(VectorOf(old(B[..])), i, g))
  {
    var f := A[i, i];
    ghost var w;
    g, w := DivideElements(A, i, i + 1, m);
    DivideEntry(B, i, f, g);
  }

  /** Divides row i by its diagonal element, from column begin on. */
  method DivideElements(A: array2<real>, i: nat, begin: nat, ghost m: Matrix) returns (ghost g: real, ghost w: Matrix)
    requires A.Length0 == A.Length1 && i < A.Length0 && begin <= A.Length1 && Holds(A, m) && m(i, i) != 0.0
    modifies A
    ensures Holds(A, w) && g == 1.0 / m(i, i) && g != 0.0 && m(i, i) * g == 1.0
    ensures forall p, k :: w(p, k) == if p == i && begin <= k < A.Length1 then m(p, k) * g else m(p, k)
  {
    var f := A[i, i];
    g := InverseOf(f);
    w := m;
    for c := begin to A.Length1
      invariant Holds(A, w)
      invariant forall p, k :: w(p, k) == if p == i && begin <= k < c then m(p, k) * g else m(p, k)
    {
      DivideElement(A, i, c, f, g, w);
      w := Upd(w, i, c, w(i, c) * g);
    }
  }

  method DivideElement(A: array2<real>, i: nat, c: nat, f: real, ghost g: real, ghost w: Matrix)
    requires i < A.Length0 && c < A.Length1 && Holds(A, w) && f != 0.0 && g == 1.0 / f
    modifies A
    ensures Holds(A, Upd(w, i, c, w(i, c) * g))
  {
    Reciprocal(A[i, c], f);
    Store(A, i, c, A[i, c] / f, w);
  }

  method DivideEntry(B: array<real>, i: nat, f: real, ghost g: real)
    requires i < B.Length && f != 0.0 && g == 1.0 / f
    modifies B
    ensures Same(B.Length, VectorOf(B[..]), ScaleEntry(VectorOf(old(B[..])), i, g))
  {
    Reciprocal(B[i], f);
    B[i] := B[i] / f;
  }

  /** Turns column i into that of the unit matrix. */
  method UnifyColumn(A: array2<real>, B: array<real>, i: nat, ghost m: Matrix, ghost a: Matrix, ghost b: Vector) returns (ghost w: Matrix)
    requires A.Length0 == A.Length1 == B.Length && i < B.Length && Holds(A, m) && m(i, i) != 0.0
    requires Kept(B.Length, a, b, Before(m, i), VectorOf(B[..]))
    modifies A, B
    ensures Holds(A, w) && Kept(B.Length, a, b, Before(w, i + 1), VectorOf(B[..]))
  {
    hide Kept, Unified, Before;
    ghost var n, v := B.Length, VectorOf(B[..]);
    ghost var g := NormalizeRow(A, B, i, m);
    ScaleKept(n, a, b, Before(m, i), v, i, g);
    UnifiedStart(n, m, i, g);
    w := Normalized(m, i, g);
    AgreeingKept(n, a, b, ScaleRow(Before(m, i), i, g), ScaleEntry(v, i, g), Unified(w, i, 0), VectorOf(B[..]));
    for r := 0 to A.Length0
      invariant Holds(A, w) && Kept(n, a, b, Unified(w, i, r), VectorOf(B[..]))
    {
      if r != i {
        w := UnifyElement(A, B, i, r, w, a, b);
      } else {
        UnifiedSkip(n, w, i);
        AgreeingKept(n, a, b, Unified(w, i, i), VectorOf(B[..]), Unified(w, i, i + 1), VectorOf(B[..]));
      }
    }
    UnifiedNext(n, w, i);
    AgreeingKept(n, a, b, Unified(w, i, n), VectorOf(B[..]), Before(w, i + 1), VectorOf(B[..]));
  }

  method UnifyElement(A: array2<real>, B: array<real>, i: nat, r: nat, ghost m: Matrix, ghost a: Matrix, ghost b: Vector) returns (ghost w: Matrix)
    requires A.Length0 == A.Length1 == B.Length && i < B.Length && r < B.Length && r != i && Holds(A, m)
    requires Kept(B.Length, a, b, Unified(m, i, r), VectorOf(B[..]))
    modifies A, B
    ensures Holds(A, w) && Kept(B.Length, a, b, Unified(w, i, r + 1), VectorOf(B[..]))
  {
    hide Kept, Unified;
    ghost var n, v := B.Length, VectorOf(B[..]);
    var f := A[r, i];
    SubtractRow(A, B, i, r, f, m);
    w := Eliminated(m, i, r, f);
    AddKept(n, a, b, Unified(m, i, r), v, r, i, f);
    UnifiedStep(n, m, i, r);
    AgreeingKept(n, a, b, AddRow(Unified(m, i, r), r, i, f), AddEntry(v, r, i, f), Unified(w, i, r + 1), VectorOf(B[..]));
  }

  lemma PivotKeptBefore(n: nat, a: Matrix, b: Vector, m: Matrix, v: Vector, w: Matrix, z: Vector, i: nat, q: nat)
    requires Kept(n, a, b, Before(m, i), v) && i <= q < n
    requires Agree(n, w, SwapRows(m, i, q)) && Same(n, z, SwapEntries(v, i, q))
    ensures Kept(n, a, b, Before(w, i), z)
  {
    SwapKept(n, a, b, Before(m, i), v, i, q);
    BeforeSwap(n, m, i, q);
    AgreeingKept(n, a, b, SwapRows(Before(m, i), i, q), SwapEntries(v, i, q), Before(w, i), z);
  }

  /** Turns the matrix into the unit matrix; stops at the first column without a pivot. */
  method Diagonalize(A: array2<real>, B: array<real>, ghost a: Matrix) returns (ok: bool)
    requires A.Length0 == A.Length1 == B.Length && Holds(A, a)
    modifies A, B
    ensures ok <==> !Singular(B.Length, a)
    ensures ok ==> Solves(B.Length, a, VectorOf(B[..]), VectorOf(old(B[..])))
  {
    ghost var n, b, m := B.Length, VectorOf(B[..]), a;
    KeptAtStart(n, a, b);
    for i := 0 to A.Length0
      invariant Holds(A, m) && Kept(n, a, b, Before(m, i), VectorOf(B[..]))
    {
      hide Kept, Before;
      ghost var v := VectorOf(B[..]);
      var found;
      ghost var w, q;
      found, w, q := Pivot(A, B, i, m);
      if !found {
        BeforeSingular(n, m, i);
        SingularKept(n, a, b, Before(m, i), v);
        return false;
      }
      PivotKeptBefore(n, a, b, m, v, w, VectorOf(B[..]), i, q);
      m := UnifyColumn(A, B, i, w, a, b);
    }
    ok := true;
    UnitSolves(n, m, VectorOf(B[..]));
    SingularKept(n, a, b, Before(m, n), VectorOf(B[..]));
  }

  /** Gauss-Jordan elimination: stops at a missing pivot exactly for singular
      matrices, and otherwise the right hand side has become the solution. */
  method SolveGaussJordan(A: array2<real>, B: array<real>, X: array<real>) returns (ok: bool)
    requires A.Length0 == A.Length1 == B.Length == X.Length && X != B
    modifies A, B, X
    ensures ok <==> !Singular(X.Length, old(MatrixOf(A)))
    ensures ok ==> Solves(X.Length, old(MatrixOf(A)), VectorOf(X[..]), VectorOf(old(B[..])))
  {
    ghost var a := MatrixOf(A);
    ok := Diagonalize(A, B, a);
    if ok {
      ghost var s := B[..];
      forall c | 0 <= c < X.Length { X[c] := B[c]; }
      assert X[..] == s;
    }
  }

  /** All the solvers agree: a system that is not singular has one solution. */
  lemma SolversAgree(n: nat, a: Matrix, x: seq<real>, y: seq<real>, b: Vector)
    requires |x| == n == |y| && !Singular(n, a)
    requires Solves(n, a, VectorOf(x), b) && Solves(n, a, VectorOf(y), b)
    ensures x == y
  {
    SolutionIsUnique(n, a, VectorOf(x), VectorOf(y), b);
    assert forall i | 0 <= i < n :: x[i] == VectorOf(x)(i) == VectorOf(y)(i) == y[i];
  }
}
