/** The equation system solver: LU factorization and substitution. */
module EqnSys {
  import opened Arithmetic
  import opened LinearAlgebra
  import opened LinearSystems
  import opened LuFactors
  import opened LuSteps
  import opened MatrixStore

  method Reduce(a: array2<real>, r: nat, c: nat, k: nat, ghost m: Matrix) returns (f: real)
    requires r < a.Length0 && c < a.Length1 && k <= a.Length0 && k <= a.Length1
    requires Holds(a, m)
    ensures f == m(r, c) - Inner(m, r, c, k)
  {
    f := a[r, c];
    for t := 0 to k
      invariant f == m(r, c) - Inner(m, r, c, t)
    {
      f := f - a[r, t] * a[t, c];
      TimesLast(t, Row(m, r), Column(m, c));
    }
  }

  ghost function LowerValue(s: Scheme, m: Matrix, y: Vector, i: nat): real {
    Sum(i, Times(Row(m, i), y)) + (if s == Crout then m(i, i) * y(i) else y(i))
  }

  ghost function UpperValue(s: Scheme, m: Matrix, n: nat, x: Vector, i: nat): real {
    Sum(n, Times(Row(Above(m), i), x)) + (if s == Crout then x(i) else m(i, i) * x(i))
  }

  /** The first i unknowns of the lower triangular system with right hand side b. */
  ghost predicate LowerSolved(s: Scheme, m: Matrix, x: Vector, b: Vector, i: nat) {
    forall k | 0 <= k < i :: LowerValue(s, m, x, k) == b(k)
  }

  ghost predicate UpperSolved(s: Scheme, m: Matrix, n: nat, x: Vector, b: Vector, i: nat) {
    forall k | i <= k < n :: UpperValue(s, m, n, x, k) == b(k)
  }

  lemma LowerValueCongruence(s: Scheme, m: Matrix, x: Vector, z: Vector, i: nat)
    requires forall k | 0 <= k <= i :: z(k) == x(k)
    ensures LowerValue(s, m, z, i) == LowerValue(s, m, x, i)
  {
    SumCongruence(i, Times(Row(m, i), z), Times(Row(m, i), x));
  }

  lemma LowerNext(s: Scheme, m: Matrix, x: Vector, z: Vector, b: Vector, i: nat)
    requires LowerSolved(s, m, x, b, i) && LowerValue(s, m, z, i) == b(i)
    requires forall k | 0 <= k < i :: z(k) == x(k)
    ensures LowerSolved(s, m, z, b, i + 1)
  {
    forall k | 0 <= k < i
      ensures LowerValue(s, m, z, k) == b(k)
    {
      LowerValueCongruence(s, m, x, z, k);
    }
  }

  lemma LowerLast(s: Scheme, m: Matrix, x: Vector, z: Vector, v: real, i: nat, f: real)
    requires m(i, i) != 0.0 && f == v - Sum(i, Times(Row(m, i), x))
    requires forall k | 0 <= k < i :: z(k) == x(k)
    requires z(i) == if s == Crout then f / m(i, i) else f
    ensures LowerValue(s, m, z, i) == v
  {
    hide Sum, Times;
    BelowCongruence(m, i, x, z);
    QuotientTimes(f, m(i, i));
  }

  lemma BelowCongruence(m: Matrix, i: nat, x: Vector, z: Vector)
    requires forall k | 0 <= k < i :: z(k) == x(k)
    ensures Sum(i, Times(Row(m, i), z)) == Sum(i, Times(Row(m, i), x))
  {
    SumCongruence(i, Times(Row(m, i), z), Times(Row(m, i), x));
  }

  lemma UpperValueCongruence(s: Scheme, m: Matrix, n: nat, x: Vector, z: Vector, i: nat)
    requires forall k | i <= k < n :: z(k) == x(k)
    requires i < n
    ensures UpperValue(s, m, n, z, i) == UpperValue(s, m, n, x, i)
  {
    SumCongruence(n, Times(Row(Above(m), i), z), Times(Row(Above(m), i), x));
  }

  lemma UpperNext(s: Scheme, m: Matrix, n: nat, x: Vector, z: Vector, b: Vector, i: nat, f: real)
    requires i < n && UpperSolved(s, m, n, x, b, i + 1) && m(i, i) != 0.0
    requires f == b(i) - Sum(n, Times(Row(Above(m), i), x))
    requires forall k | i < k < n :: z(k) == x(k)
    requires z(i) == if s == Crout then f else f / m(i, i)
    ensures UpperSolved(s, m, n, z, b, i)
  {
    forall k | i < k < n
      ensures UpperValue(s, m, n, z, k) == b(k)
    {
      UpperValueCongruence(s, m, n, x, z, k);
    }
    AboveCongruence(m, n, x, z, i);
    QuotientTimes(f, m(i, i));
  }

  lemma UpperRows(s: Scheme, m: Matrix, n: nat, x: Vector, y: Vector)
    requires UpperSolved(s, m, n, x, y, 0)
    ensures forall k | 0 <= k < n :: Apply(n, Upper(s, m), x)(k) == y(k)
  {
    forall k | 0 <= k < n
      ensures Apply(n, Upper(s, m), x)(k) == y(k)
    {
      UpperRow(s, m, n, k, x);
      assert UpperValue(s, m, n, x, k) == y(k);
    }
  }

  lemma AboveCongruence(m: Matrix, n: nat, x: Vector, z: Vector, i: nat)
    requires forall k | i < k < n :: z(k) == x(k)
    ensures Sum(n, Times(Row(Above(m), i), z)) == Sum(n, Times(Row(Above(m), i), x))
  {
    SumCongruence(n, Times(Row(Above(m), i), z), Times(Row(Above(m), i), x));
  }

  /** The right hand side in the order of the exchange table. */
  ghost function Exchanged(b: seq<real>, p: seq<int>): Vector {
    i => if 0 <= i < |p| && 0 <= p[i] < |b| then b[p[i]] else 0.0
  }

  class EquationSystem {
    const tiny: real
    var N: nat
    var A: array2<real>
    var B: array<real>
    var X: array<real>
    var rMap: array<int>
    var nPvt: array<real>
    var update: bool
    var estack: seq<int>

    constructor (tiny: real)
      requires tiny > 0.0
      ensures Valid() && this.tiny == tiny && N == 0 && update && estack == []
      ensures fresh(rMap) && fresh(nPvt)
    {
      this.tiny := tiny;
      N, update, estack := 0, true, [];
      A := new real[0, 0];
      B, X, nPvt := new real[0], new real[0], new real[0];
      rMap := new int[0];
    }

    /** Passes a new system.  Without a matrix the factors of the last one stay. */
    method PassEquationSys(nA: array2?<real>, refX: array<real>, nB: array<real>)
      requires Valid() && refX != nPvt && nB.Length == refX.Length
      requires nA != null ==> nA.Length0 == nA.Length1 == nB.Length
      requires nA == null ==> nB.Length == N
      modifies this
      ensures Valid() && X == refX && fresh(B) && B[..] == nB[..]
      ensures nA != null ==> A == nA && update && N == nA.Length1
      ensures nA == null ==> A == old(A) && !update && N == old(N)
      ensures nA == null || nA.Length1 == old(N) ==> rMap == old(rMap) && nPvt == old(nPvt)
      ensures rMap == old(rMap) || fresh(rMap)
      ensures nPvt == old(nPvt) || fresh(nPvt)
      ensures estack == old(estack)
    {
      if nA != null {
        A, update := nA, true;
        if N != A.Length1 {
          N := A.Length1;
          rMap := new int[N];
          nPvt := new real[N];
        }
      } else {
        update := false;
      }
      B := new real[nB.Length];
      forall i | 0 <= i < nB.Length { B[i] := nB[i]; }
      X := refX;
    }

    ghost predicate Valid()
      reads this
    {
      && tiny > 0.0
      && A.Length0 == A.Length1 == N
      && B.Length == X.Length == nPvt.Length == N
      && rMap.Length == N
      && B != X && B != nPvt && X != nPvt
    }

    method ReduceUpper(s: Scheme, c: nat, ghost a: Matrix, ghost m: Matrix, ghost p: seq<int>) returns (ghost w: Matrix)
      requires Valid() && c < N && Holds(A, m) && Reduced(s, N, m, a, p, c, 0)
      requires forall r | 0 <= r < c :: m(r, r) != 0.0
      modifies A
      ensures Holds(A, w) && Reduced(s, N, w, a, p, c, c)
      ensures forall i, t | t != c :: w(i, t) == m(i, t)
    {
      hide Reduced, Inner;
      w := m;
      for r := 0 to c
        invariant Holds(A, w) && Reduced(s, N, w, a, p, c, r)
        invariant forall i, t | t != c :: w(i, t) == m(i, t)
      {
        var f := Reduce(A, r, c, r, w);
        if s == Crout { f := f / A[r, r]; }
        UpperStep(s, N, w, a, p, c, r, f);
        Store(A, r, c, f, w);
        w := Upd(w, r, c, f);
      }
    }

    method ReduceElement(s: Scheme, r: nat, c: nat, ghost a: Matrix, ghost m: Matrix, ghost p: seq<int>) returns (f: real)
      requires Valid() && c <= r < N && Holds(A, m) && Reduced(s, N, m, a, p, c, r)
      modifies A
      ensures Holds(A, Upd(m, r, c, f)) && Reduced(s, N, Upd(m, r, c, f), a, p, c, r + 1)
    {
      f := Reduce(A, r, c, c, m);
      LowerStep(s, N, m, a, p, c, r, f);
      Store(A, r, c, f, m);
    }

    method ReduceLower(s: Scheme, c: nat, ghost a: Matrix, ghost m: Matrix, ghost p: seq<int>)
      returns (pivot: nat, MaxPivot: real, ghost w: Matrix)
      requires Valid() && c < N && Holds(A, m) && Reduced(s, N, m, a, p, c, c)
      requires forall r | 0 <= r < N :: nPvt[r] > 0.0
      modifies A
      ensures Holds(A, w) && Reduced(s, N, w, a, p, c, N)
      ensures forall i, t | t != c :: w(i, t) == m(i, t)
      ensures pivot < N && Largest(Sizes(nPvt[..], w, c), c, pivot, MaxPivot, N)
    {
      w := m;
      MaxPivot, pivot := 0.0, c;
      ghost var q := nPvt[..];
      assert Largest(Sizes(q, w, c), c, pivot, MaxPivot, c);
      hide Reduced, Largest, Sizes;
      for r := c to N
        invariant Holds(A, w) && Reduced(s, N, w, a, p, c, r)
        invariant forall i, t | t != c :: w(i, t) == m(i, t)
        invariant nPvt[..] == q && pivot < N && Largest(Sizes(q, w, c), c, pivot, MaxPivot, r)
      {
        pivot, MaxPivot, w := ReduceLowerRow(s, r, c, pivot, MaxPivot, a, w, p);
      }
    }

    /** Reduces an element of the lower part and compares it with the largest so far. */
    method ReduceLowerRow(s: Scheme, r: nat, c: nat, pivot0: nat, MaxPivot0: real, ghost a: Matrix, ghost m: Matrix, ghost p: seq<int>)
      returns (pivot: nat, MaxPivot: real, ghost w: Matrix)
      requires Valid() && c <= r < N && Holds(A, m) && Reduced(s, N, m, a, p, c, r)
      requires nPvt[r] > 0.0 && pivot0 < N && Largest(Sizes(nPvt[..], m, c), c, pivot0, MaxPivot0, r)
      modifies A
      ensures Holds(A, w) && Reduced(s, N, w, a, p, c, r + 1)
      ensures forall i, t | t != c :: w(i, t) == m(i, t)
      ensures pivot < N && Largest(Sizes(nPvt[..], w, c), c, pivot, MaxPivot, r + 1)
    {
      hide Reduced, Largest, Sizes;
      var f := ReduceElement(s, r, c, a, m, p);
      var d := nPvt[r] * Abs(f);
      SizeStep(nPvt[..], m, c, pivot0, MaxPivot0, r, f, d);
      w := Upd(m, r, c, f);
      MaxPivot, pivot := MaxPivot0, pivot0;
      if d > MaxPivot {
        MaxPivot, pivot := d, r;
      }
    }

    /** The row scales and the identity permutation. */
    method InitPivots()
      requires Valid()
      modifies nPvt, rMap
      ensures forall r | 0 <= r < N :: nPvt[r] == RowScale(MatrixOf(A), N, tiny, r) && rMap[r] == r
    {
      ghost var a := MatrixOf(A);
      for r := 0 to N
        invariant forall i | 0 <= i < r :: nPvt[i] == RowScale(a, N, tiny, i) && rMap[i] == i
      {
        var MaxPivot := 0.0;
        for c := 0 to N
          invariant MaxPivot == RowMax(a, r, c)
          invariant forall i | 0 <= i < r :: nPvt[i] == RowScale(a, N, tiny, i) && rMap[i] == i
        {
          assert A[r, c] == a(r, c);
          var d := Abs(A[r, c]);
          if d > MaxPivot { MaxPivot := d; }
        }
        if MaxPivot <= 0.0 { MaxPivot := tiny; }
        assert 1.0 / MaxPivot == RowScale(a, N, tiny, r);
        nPvt[r] := 1.0 / MaxPivot;
        rMap[r] := r;
      }
    }

    method ExchangeRows(r: nat, q: nat, ghost m: Matrix)
      requires Valid() && r < N && q < N && Holds(A, m)
      modifies A
      ensures Holds(A, SwapRows(m, r, q))
    {
      forall i, j | 0 <= i < N && 0 <= j < N {
        A[i, j] := A[if i == r then q else if i == q then r else i, j];
      }
    }

    /** Doolittle's division of column c by its pivot; Crout has none. */
    method DivideColumn(s: Scheme, c: nat, ghost m: Matrix)
      requires Valid() && c < N && Holds(A, m) && m(c, c) != 0.0
      modifies A
      ensures Holds(A, Divided(s, m, c))
    {
      if s == Doolittle && c < N - 1 {
        var f := 1.0 / A[c, c];
        ghost var u := Divided(s, m, c);
        for r := c + 1 to N
          invariant forall i, j | 0 <= i < N && 0 <= j < N :: A[i, j] == if i < r then u(i, j) else m(i, j)
        {
          assert m(r, c) * f == u(r, c);
          A[r, c] := A[r, c] * f;
        }
      }
    }

    method ReduceColumn(s: Scheme, c: nat, ghost a: Matrix, ghost g: Stage)
      returns (pivot: nat, MaxPivot: real, ghost w: Matrix)
      requires Valid() && c < N && Holds(A, g.m)
      requires g.q == nPvt[..] && Reached(s, N, a, tiny, g, c)
      modifies A
      ensures Holds(A, w) && Reduced(s, N, w, a, g.p, c, N) && forall i, t | t != c :: w(i, t) == g.m(i, t)
      ensures pivot < N && Largest(Sizes(g.q, w, c), c, pivot, MaxPivot, N)
    {
      w := ReduceUpper(s, c, a, g.m, g.p);
      forall r | 0 <= r < N ensures nPvt[r] > 0.0 { RowScalePositive(a, N, tiny, g.p[r]); }
      ghost var v := w;
      pivot, MaxPivot, w := ReduceLower(s, c, a, v, g.p);
    }

    /** Without a pivot the virtual resistance is stored and the row reported. */
    method InsertResistance(s: Scheme, c: nat, ghost a: Matrix, ghost g: Stage, ghost w: Matrix) returns (ghost h: Stage)
      requires Valid() && c < N && Holds(A, w)
      requires g.p == rMap[..] && g.q == nPvt[..] && Reached(s, N, a, tiny, g, c)
      requires Reduced(s, N, w, a, g.p, c, N) && forall i, t | t != c :: w(i, t) == g.m(i, t)
      requires Largest(Sizes(g.q, w, c), c, c, 0.0, N)
      modifies A, this`estack
      ensures Valid() && Holds(A, Upd(w, c, c, tiny)) && h.m == Divided(s, Upd(w, c, c, tiny), c)
      ensures h.p == rMap[..] && h.q == nPvt[..]
      ensures h.rows == g.rows + [rMap[c]] && estack == old(estack) + [rMap[c]]
      ensures Reached(s, N, a, tiny, h, c + 1)
    {
      ReachedWithoutPivot(s, N, a, tiny, g, w, c);
      estack := estack + [rMap[c]];
      Store(A, c, c, tiny, w);
      h := Stage(Divided(s, Upd(w, c, c, tiny), c), k => if k == c then tiny else g.d(k), g.p, g.q, g.rows + [g.p[c]]);
    }

    /** The pivot row changes places with row c, in the matrix and in the tables. */
    method ExchangePivot(s: Scheme, c: nat, pivot: nat, ghost MaxPivot: real, ghost a: Matrix, ghost g: Stage, ghost w: Matrix)
      returns (ghost h: Stage)
      requires Valid() && c < N && Holds(A, w)
      requires g.p == rMap[..] && g.q == nPvt[..] && Reached(s, N, a, tiny, g, c)
      requires Reduced(s, N, w, a, g.p, c, N) && forall i, t | t != c :: w(i, t) == g.m(i, t)
      requires pivot < N && Largest(Sizes(g.q, w, c), c, pivot, MaxPivot, N) && MaxPivot > 0.0
      modifies A, rMap, nPvt
      ensures Valid() && Holds(A, SwapRows(w, c, pivot)) && h.m == Divided(s, SwapRows(w, c, pivot), c)
      ensures w(pivot, c) != 0.0
      ensures h.p == rMap[..] && h.q == nPvt[..] && h.rows == g.rows
      ensures Reached(s, N, a, tiny, h, c + 1)
    {
      ReachedWithPivot(s, N, a, tiny, g, w, c, pivot, MaxPivot);
      h := Stage(Divided(s, SwapRows(w, c, pivot), c), g.d, Swapped(g.p, c, pivot), Swapped(g.q, c, pivot), g.rows);
      if c != pivot {
        ExchangeRows(c, pivot, w);
        rMap[c], rMap[pivot] := rMap[pivot], rMap[c];
        nPvt[c], nPvt[pivot] := nPvt[pivot], nPvt[c];
      }
      assert rMap[..] == h.p && nPvt[..] == h.q;
    }

    /** One turn of the outer loop: reduces column c, chooses its pivot, and
        exchanges and divides as the scheme asks. */
    method PivotColumn(s: Scheme, c: nat, ghost a: Matrix, ghost g: Stage) returns (ghost h: Stage)
      requires Valid() && c < N && Holds(A, g.m)
      requires g.p == rMap[..] && g.q == nPvt[..] && Reached(s, N, a, tiny, g, c)
      modifies A, rMap, nPvt, this`estack
      ensures Valid() && Holds(A, h.m)
      ensures h.p == rMap[..] && h.q == nPvt[..] && Reached(s, N, a, tiny, h, c + 1)
      ensures |h.rows| >= |g.rows| && estack == old(estack) + h.rows[|g.rows|..] && g.rows <= h.rows
    {
      hide Holds, Reached, Reduced, Largest, Sizes;
      ghost var w, u;
      var pivot, MaxPivot;
      pivot, MaxPivot, w := ReduceColumn(s, c, a, g);
      if MaxPivot <= 0.0 {
        assert MaxPivot == 0.0 && pivot == c;
        h := InsertResistance(s, c, a, g, w);
        u := Upd(w, c, c, tiny);
      } else {
        h := ExchangePivot(s, c, pivot, MaxPivot, a, g, w);
        u := SwapRows(w, c, pivot);
      }
      DivideColumn(s, c, u);
    }

    method FactorizeColumns(s: Scheme, ghost a: Matrix) returns (ghost g: Stage)
      requires Valid() && Holds(A, a)
      requires forall r | 0 <= r < N :: nPvt[r] == RowScale(a, N, tiny, r) && rMap[r] == r
      modifies A, rMap, nPvt, this`estack
      ensures Valid() && Holds(A, g.m)
      ensures g.p == rMap[..] && g.q == nPvt[..] && estack == old(estack) + g.rows
      ensures Reached(s, N, a, tiny, g, N)
    {
      g := Stage(a, k => 0.0, rMap[..], nPvt[..], []);
      ReachedAtStart(s, N, a, tiny, g.p, g.q);
      for c := 0 to N
        invariant Valid() && Holds(A, g.m)
        invariant g.p == rMap[..] && g.q == nPvt[..] && estack == old(estack) + g.rows
        invariant Reached(s, N, a, tiny, g, c)
      {
        g := PivotColumn(s, c, a, g);
      }
    }

    /** Factorizes A in place; `estack` receives the row of every column in
        which the virtual resistance had to take the place of a pivot. */
    method FactorizeLu(s: Scheme)
      requires Valid()
      modifies A, rMap, nPvt, this`estack
      ensures Valid() && Permutation(rMap[..])
      ensures old(estack) <= estack
      ensures Factors(s, N, MatrixOf(A), rMap[..],
                Perturbed(old(MatrixOf(A)), tiny, rMap[..], estack[|old(estack)|..]))
      ensures estack == old(estack) <==> !Singular(N, old(MatrixOf(A)))
      ensures forall r | 0 <= r < N :: nPvt[r] == RowScale(old(MatrixOf(A)), N, tiny, rMap[r])
      ensures Dominant(s, nPvt[..], MatrixOf(A), N)
    {
      ghost var a := MatrixOf(A);
      InitPivots();
      ghost var g := FactorizeColumns(s, a);
      FinishedFactors(s, N, g.m, a, g.d, tiny, g.p, g.rows);
      FactorsCongruence(s, N, g.m, MatrixOf(A), g.p, Perturbed(a, tiny, g.p, g.rows));
      DominantCongruence(s, N, g.q, g.m, MatrixOf(A));
    }

    method ForwardRow(i: nat, ghost m: Matrix) returns (f: real)
      requires Valid() && i < N && Holds(A, m) && 0 <= rMap[i] < N
      ensures f == B[rMap[i]] - Sum(i, Times(Row(m, i), VectorOf(X[..])))
    {
      f := B[rMap[i]];
      for c := 0 to i
        invariant f == B[rMap[i]] - Sum(c, Times(Row(m, i), VectorOf(X[..])))
      {
        f := f - A[i, c] * X[c];
        TimesLast(c, Row(m, i), VectorOf(X[..]));
      }
    }

    method ForwardStep(s: Scheme, i: nat, ghost m: Matrix, ghost b: Vector)
      requires Valid() && i < N && Holds(A, m) && 0 <= rMap[i] < N && m(i, i) != 0.0
      requires LowerSolved(s, m, VectorOf(X[..]), b, i) && b(i) == B[rMap[i]]
      modifies X
      ensures LowerSolved(s, m, VectorOf(X[..]), b, i + 1)
    {
      hide LowerSolved, LowerValue;
      var f := ForwardRow(i, m);
      ghost var x := X[..];
      X[i] := if s == Crout then f / A[i, i] else f;
      LowerLast(s, m, VectorOf(x), VectorOf(X[..]), b(i), i, f);
      LowerNext(s, m, VectorOf(x), VectorOf(X[..]), b, i);
    }

    /** Forward substitution: X becomes the solution of L X = B, exchanged. */
    method Forward(s: Scheme, ghost m: Matrix)
      requires Valid() && Holds(A, m) && Permutation(rMap[..])
      requires forall c | 0 <= c < N :: m(c, c) != 0.0
      modifies X
      ensures forall i | 0 <= i < N :: Apply(N, Lower(s, m), VectorOf(X[..]))(i) == B[rMap[i]]
    {
      ghost var b := Exchanged(B[..], rMap[..]);
      for i := 0 to N
        invariant LowerSolved(s, m, VectorOf(X[..]), b, i)
      {
        ForwardStep(s, i, m, b);
      }
      forall i | 0 <= i < N
        ensures Apply(N, Lower(s, m), VectorOf(X[..]))(i) == B[rMap[i]]
      {
        LowerRow(s, m, N, i, VectorOf(X[..]));
        assert LowerValue(s, m, VectorOf(X[..]), i) == b(i);
      }
    }

    method BackwardRow(i: nat, ghost m: Matrix) returns (f: real)
      requires Valid() && i < N && Holds(A, m)
      ensures f == X[i] - Sum(N, Times(Row(Above(m), i), VectorOf(X[..])))
    {
      f := X[i];
      SumZero(i + 1, Times(Row(Above(m), i), VectorOf(X[..])));
      for c := i + 1 to N
        invariant f == X[i] - Sum(c, Times(Row(Above(m), i), VectorOf(X[..])))
      {
        f := f - A[i, c] * X[c];
        TimesLast(c, Row(Above(m), i), VectorOf(X[..]));
      }
    }

    method BackwardStep(s: Scheme, i: nat, ghost m: Matrix, ghost y: Vector)
      requires Valid() && i < N && Holds(A, m) && m(i, i) != 0.0
      requires UpperSolved(s, m, N, VectorOf(X[..]), y, i + 1) && X[i] == y(i)
      modifies X
      ensures UpperSolved(s, m, N, VectorOf(X[..]), y, i)
      ensures forall k | 0 <= k < i :: X[k] == old(X[k])
    {
      hide UpperSolved, Above;
      var f := BackwardRow(i, m);
      ghost var x := X[..];
      X[i] := if s == Crout then f else f / A[i, i];
      UpperNext(s, m, N, VectorOf(x), VectorOf(X[..]), y, i, f);
    }

    /** Backward substitution: X becomes the solution of U X' = X. */
    method Backward(s: Scheme, ghost m: Matrix)
      requires Valid() && Holds(A, m)
      requires forall c | 0 <= c < N :: m(c, c) != 0.0
      modifies X
      ensures forall i | 0 <= i < N :: Apply(N, Upper(s, m), VectorOf(X[..]))(i) == old(X[i])
    {
      ghost var y := VectorOf(X[..]);
      var i := N;
      while i > 0
        invariant 0 <= i <= N
        invariant forall k | 0 <= k < i :: X[k] == y(k)
        invariant UpperSolved(s, m, N, VectorOf(X[..]), y, i)
      {
        hide UpperSolved;
        i := i - 1;
        BackwardStep(s, i, m, y);
      }
      UpperRows(s, m, N, VectorOf(X[..]), y);
    }

    /** Solves with the factors in A: X solves a X = B for the matrix a that was
        factorized, as often as new right hand sides are passed. */
    method SubstituteLu(s: Scheme, ghost a: Matrix)
      requires Valid() && Permutation(rMap[..]) && Factors(s, N, MatrixOf(A), rMap[..], a)
      modifies X
      ensures Solves(N, a, VectorOf(X[..]), VectorOf(B[..]))
    {
      ghost var m := MatrixOf(A);
      Forward(s, m);
      ghost var y := X[..];
      Backward(s, m);
      FactorsSolve(s, N, m, rMap[..], a, VectorOf(y), VectorOf(X[..]), VectorOf(B[..]));
    }

    /** Factorizes if a new matrix was passed, and substitutes.  Without any
        report the solution is that of the matrix passed; with reports it is that
        of the matrix with virtual resistances. */
    method SolveLu(s: Scheme, ghost a: Matrix)
      requires Valid()
      requires update ==> Agree(N, a, MatrixOf(A))
      requires !update ==> Permutation(rMap[..]) && Factors(s, N, MatrixOf(A), rMap[..], a)
      modifies A, rMap, nPvt, X, this`estack
      ensures Valid() && Permutation(rMap[..]) && old(estack) <= estack
      ensures var e := if old(update) then Perturbed(a, tiny, rMap[..], estack[|old(estack)|..]) else a;
              Factors(s, N, MatrixOf(A), rMap[..], e) && Solves(N, e, VectorOf(X[..]), VectorOf(B[..]))
      ensures old(update) ==> (estack == old(estack) <==> !Singular(N, a))
      ensures !old(update) ==> estack == old(estack) && rMap[..] == old(rMap[..])
      ensures estack == old(estack) ==> Solves(N, a, VectorOf(X[..]), VectorOf(B[..]))
    {
      ghost var e := a;
      if update {
        ghost var stored := MatrixOf(A);
        FactorizeLu(s);
        ghost var rows := estack[|old(estack)|..];
        e := Perturbed(a, tiny, rMap[..], rows);
        FactorsOfAgreeing(s, N, MatrixOf(A), rMap[..], Perturbed(stored, tiny, rMap[..], rows), e);
        SingularOfAgreeing(N, a, stored);
      }
      SubstituteLu(s, e);
      if estack == old(estack) {
        SolvesOfAgreeing(N, e, a, VectorOf(X[..]), VectorOf(B[..]));
      }
    }
  }
}
