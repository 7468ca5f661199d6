/** Operations on the rows of a linear system keep its solutions. */
module RowOperations {
  import opened Arithmetic
  import opened LinearAlgebra
  import opened LinearSystems
  import opened LuFactors
  import opened MatrixStore

  ghost function Zeros(): Vector { i => 0.0 }

  /** u x = v has the solutions of a x = b. */
  ghost predicate Equivalent(n: nat, a: Matrix, b: Vector, u: Matrix, v: Vector) {
    forall x: Vector :: Solves(n, a, x, b) <==> Solves(n, u, x, v)
  }

  /** The systems are equivalent, and so are their homogeneous ones. */
  ghost predicate Kept(n: nat, a: Matrix, b: Vector, u: Matrix, v: Vector) {
    Equivalent(n, a, b, u, v) && Equivalent(n, a, Zeros(), u, Zeros())
  }

  ghost predicate Same(n: nat, v: Vector, w: Vector) {
    forall i | 0 <= i < n :: v(i) == w(i)
  }

  ghost function AddRow(u: Matrix, r: int, i: int, f: real): Matrix {
    (p, c) => if p == r then u(p, c) - f * u(i, c) else u(p, c)
  }

  ghost function AddEntry(v: Vector, r: int, i: int, f: real): Vector {
    p => if p == r then v(p) - f * v(i) else v(p)
  }

  ghost function ScaleRow(u: Matrix, i: int, g: real): Matrix {
    (p, c) => if p == i then u(p, c) * g else u(p, c)
  }

  ghost function ScaleEntry(v: Vector, i: int, g: real): Vector {
    p => if p == i then v(p) * g else v(p)
  }

  ghost function SwapEntries(v: Vector, r: int, q: int): Vector {
    p => if p == r then v(q) else if p == q then v(r) else v(p)
  }

  // ---------------------------------------------------------- single operations

  lemma Distribute(s: real, t: real, f: real, x: real)
    ensures (s - f * t) * x == 1.0 * (s * x) + -f * (t * x)
  {
  }

  lemma AddedTerm(u: Matrix, r: int, i: int, f: real, x: Vector, c: int)
    ensures Times(Row(AddRow(u, r, i, f), r), x)(c) == Combine(1.0, Times(Row(u, r), x), -f, Times(Row(u, i), x))(c)
  {
    Distribute(u(r, c), u(i, c), f, x(c));
  }

  lemma AddedRow(n: nat, u: Matrix, r: int, i: int, f: real, x: Vector)
    ensures Apply(n, AddRow(u, r, i, f), x)(r) == Apply(n, u, x)(r) - f * Apply(n, u, x)(i)
  {
    var g, h := Times(Row(u, r), x), Times(Row(u, i), x);
    forall c | 0 <= c < n
      ensures Times(Row(AddRow(u, r, i, f), r), x)(c) == Combine(1.0, g, -f, h)(c)
    {
      AddedTerm(u, r, i, f, x, c);
    }
    hide Combine, Times, AddRow, Row, Sum;
    SumLinear(n, 1.0, g, -f, h);
    SumCongruence(n, Times(Row(AddRow(u, r, i, f), r), x), Combine(1.0, g, -f, h));
  }

  lemma OtherRow(n: nat, u: Matrix, w: Matrix, p: int, q: int, x: Vector)
    requires forall c | 0 <= c < n :: w(p, c) == u(q, c)
    ensures Apply(n, w, x)(p) == Apply(n, u, x)(q)
  {
    SumCongruence(n, Times(Row(w, p), x), Times(Row(u, q), x));
  }

  lemma AddSolves(n: nat, u: Matrix, v: Vector, r: nat, i: nat, f: real, x: Vector)
    requires r < n && i < n && i != r
    ensures Solves(n, u, x, v) <==> Solves(n, AddRow(u, r, i, f), x, AddEntry(v, r, i, f))
  {
    var w := AddRow(u, r, i, f);
    AddedRow(n, u, r, i, f, x);
    forall p | 0 <= p < n && p != r
      ensures Apply(n, w, x)(p) == Apply(n, u, x)(p)
    {
      OtherRow(n, u, w, p, p, x);
    }
    if Solves(n, w, x, AddEntry(v, r, i, f)) {
      assert Apply(n, w, x)(i) == v(i) && Apply(n, w, x)(r) == v(r) - f * v(i);
    }
  }

  lemma ScaledRow(n: nat, u: Matrix, i: int, g: real, x: Vector)
    ensures Apply(n, ScaleRow(u, i, g), x)(i) == g * Apply(n, u, x)(i)
  {
    SumScale(n, g, Times(Row(u, i), x), Times(Row(ScaleRow(u, i, g), i), x));
  }

  lemma ScaleSolves(n: nat, u: Matrix, v: Vector, i: nat, g: real, x: Vector)
    requires i < n && g != 0.0
    ensures Solves(n, u, x, v) <==> Solves(n, ScaleRow(u, i, g), x, ScaleEntry(v, i, g))
  {
    var w := ScaleRow(u, i, g);
    ScaledRow(n, u, i, g, x);
    hide Apply, Sum;
    forall p | 0 <= p < n && p != i
      ensures Apply(n, w, x)(p) == Apply(n, u, x)(p)
    {
      OtherRow(n, u, w, p, p, x);
    }
    SameFactor(Apply(n, u, x)(i), v(i), g);
    if Solves(n, w, x, ScaleEntry(v, i, g)) {
      assert Apply(n, w, x)(i) == v(i) * g;
    }
  }

  lemma SwapSolves(n: nat, u: Matrix, v: Vector, r: nat, q: nat, x: Vector)
    requires r < n && q < n
    ensures Solves(n, u, x, v) <==> Solves(n, SwapRows(u, r, q), x, SwapEntries(v, r, q))
  {
    var w := SwapRows(u, r, q);
    forall p | 0 <= p < n
      ensures Apply(n, w, x)(p) == Apply(n, u, x)(if p == r then q else if p == q then r else p)
    {
      OtherRow(n, u, w, p, if p == r then q else if p == q then r else p, x);
    }
    if Solves(n, w, x, SwapEntries(v, r, q)) {
      assert Apply(n, w, x)(r) == v(q) && Apply(n, w, x)(q) == v(r);
      forall p | 0 <= p < n
        ensures Apply(n, u, x)(p) == v(p)
      {
        assert Apply(n, w, x)(p) == SwapEntries(v, r, q)(p);
      }
    }
  }

  // ------------------------------------------------------- what operations keep

  lemma SameSolves(n: nat, u: Matrix, v: Vector, w: Matrix, z: Vector, x: Vector)
    requires Agree(n, u, w) && Same(n, v, z)
    ensures Solves(n, u, x, v) <==> Solves(n, w, x, z)
  {
    forall i | 0 <= i < n
      ensures Apply(n, w, x)(i) == Apply(n, u, x)(i)
    {
      OtherRow(n, u, w, i, i, x);
    }
  }

  lemma AgreeingKept(n: nat, a: Matrix, b: Vector, u: Matrix, v: Vector, w: Matrix, z: Vector)
    requires Kept(n, a, b, u, v) && Agree(n, u, w) && Same(n, v, z)
    ensures Kept(n, a, b, w, z)
  {
    forall x: Vector
      ensures Solves(n, a, x, b) <==> Solves(n, w, x, z)
      ensures Solves(n, a, x, Zeros()) <==> Solves(n, w, x, Zeros())
    {
      SameSolves(n, u, v, w, z, x);
      SameSolves(n, u, Zeros(), w, Zeros(), x);
    }
  }

  lemma AddKept(n: nat, a: Matrix, b: Vector, u: Matrix, v: Vector, r: nat, i: nat, f: real)
    requires Kept(n, a, b, u, v) && r < n && i < n && i != r
    ensures Kept(n, a, b, AddRow(u, r, i, f), AddEntry(v, r, i, f))
  {
    var w := AddRow(u, r, i, f);
    forall x: Vector
      ensures Solves(n, a, x, b) <==> Solves(n, w, x, AddEntry(v, r, i, f))
      ensures Solves(n, a, x, Zeros()) <==> Solves(n, w, x, Zeros())
    {
      AddSolves(n, u, v, r, i, f, x);
      AddSolves(n, u, Zeros(), r, i, f, x);
      SameSolves(n, w, AddEntry(Zeros(), r, i, f), w, Zeros(), x);
    }
  }

  lemma ScaleKept(n: nat, a: Matrix, b: Vector, u: Matrix, v: Vector, i: nat, g: real)
    requires Kept(n, a, b, u, v) && i < n && g != 0.0
    ensures Kept(n, a, b, ScaleRow(u, i, g), ScaleEntry(v, i, g))
  {
    var w := ScaleRow(u, i, g);
    forall x: Vector
      ensures Solves(n, a, x, b) <==> Solves(n, w, x, ScaleEntry(v, i, g))
      ensures Solves(n, a, x, Zeros()) <==> Solves(n, w, x, Zeros())
    {
      ScaleSolves(n, u, v, i, g, x);
      ScaleSolves(n, u, Zeros(), i, g, x);
      SameSolves(n, w, ScaleEntry(Zeros(), i, g), w, Zeros(), x);
    }
  }

  lemma SwapKept(n: nat, a: Matrix, b: Vector, u: Matrix, v: Vector, r: nat, q: nat)
    requires Kept(n, a, b, u, v) && r < n && q < n
    ensures Kept(n, a, b, SwapRows(u, r, q), SwapEntries(v, r, q))
  {
    var w := SwapRows(u, r, q);
    forall x: Vector
      ensures Solves(n, a, x, b) <==> Solves(n, w, x, SwapEntries(v, r, q))
      ensures Solves(n, a, x, Zeros()) <==> Solves(n, w, x, Zeros())
    {
      SwapSolves(n, u, v, r, q, x);
      SwapSolves(n, u, Zeros(), r, q, x);
      SameSolves(n, w, SwapEntries(Zeros(), r, q), w, Zeros(), x);
    }
  }

  lemma SingularKept(n: nat, a: Matrix, b: Vector, u: Matrix, v: Vector)
    requires Kept(n, a, b, u, v)
    ensures Singular(n, a) <==> Singular(n, u)
  {
    if s :| NullVector(n, a, s) {
      HomogeneousSolution(n, a, s);
      HomogeneousSolution(n, u, s);
      assert Solves(n, u, VectorOf(s), Zeros());
      assert NullVector(n, u, s);
    }
    if s :| NullVector(n, u, s) {
      HomogeneousSolution(n, a, s);
      HomogeneousSolution(n, u, s);
      assert Solves(n, a, VectorOf(s), Zeros());
      assert NullVector(n, a, s);
    }
  }

  lemma HomogeneousSolution(n: nat, a: Matrix, s: seq<real>)
    ensures Solves(n, a, VectorOf(s), i => 0.0) <==> Solves(n, a, VectorOf(s), Zeros())
  {
  }

  // ------------------------------------------------------ Gaussian elimination

  /** m with the elements taken for zero that elimination leaves stale: those below
      the diagonal in the first i columns, and above row r in column i. */
  ghost function Cleared(m: Matrix, i: nat, r: nat): Matrix {
    (p, c) => if (c < i && p > c) || (c == i && i < p < r) then 0.0 else m(p, c)
  }

  /** Row r after row i was subtracted f times, to the right of column i. */
  ghost function Eliminated(m: Matrix, i: nat, r: nat, f: real): Matrix {
    (p, c) => if p == r && c > i then m(p, c) - f * m(i, c) else m(p, c)
  }

  lemma ClearedStep(n: nat, m: Matrix, i: nat, r: nat, f: real)
    requires i < r < n && f * m(i, i) == m(r, i)
    ensures Agree(n, AddRow(Cleared(m, i, r), r, i, f), Cleared(Eliminated(m, i, r, f), i, r + 1))
  {
    var w, z, u := AddRow(Cleared(m, i, r), r, i, f), Cleared(Eliminated(m, i, r, f), i, r + 1), Cleared(m, i, r);
    forall p, c | 0 <= p < n && 0 <= c < n
      ensures w(p, c) == z(p, c)
    {
      if p == r && c < i {
        assert u(i, c) == 0.0;
        assert f * u(i, c) == 0.0;
      }
    }
  }

  lemma ClearedNext(n: nat, m: Matrix, i: nat)
    ensures Agree(n, Cleared(m, i, n), Cleared(m, i + 1, i + 2))
  {
  }

  lemma ClearedSwap(n: nat, m: Matrix, i: nat, q: nat)
    requires i <= q < n
    ensures Agree(n, SwapRows(Cleared(m, i, i + 1), i, q), Cleared(SwapRows(m, i, q), i, i + 1))
  {
  }

  ghost predicate DiagonalFree(m: Matrix, i: nat) {
    forall c | 0 <= c < i :: m(c, c) != 0.0
  }

  /** A column without a pivot depends on the columns before it. */
  lemma ClearedSingular(n: nat, m: Matrix, i: nat)
    requires i < n && DiagonalFree(m, i) && forall p | i <= p < n :: m(p, i) == 0.0
    ensures Singular(n, Cleared(m, i, i + 1))
  {
    var u := Cleared(m, i, i + 1);
    var w := BackSubstitution(Doolittle, m, i, 0, Column(m, i));
    var s := seq(n, k => if k < i then w(k) else if k == i then -1.0 else 0.0);
    forall p | 0 <= p < n
      ensures Apply(n, u, VectorOf(s))(p) == 0.0
    {
      TruncatedRow(n, u, p, VectorOf(s), i);
      if p < i {
        ApplyCongruence(i, u, p, Upper(Doolittle, m), p, VectorOf(s), w);
      } else {
        SumZero(i, Times(Row(u, p), VectorOf(s)));
      }
    }
    assert s[i] != 0.0;
    assert NullVector(n, u, s);
  }

  lemma ClearedIsUpper(n: nat, m: Matrix)
    ensures Agree(n, Cleared(m, n, n + 1), Upper(Doolittle, m))
  {
  }

  lemma UpperRegular(n: nat, m: Matrix)
    requires DiagonalFree(m, n)
    ensures !Singular(n, Upper(Doolittle, m))
  {
    if v :| NullVector(n, Upper(Doolittle, m), v) {
      UpperIsInjective(Doolittle, m, n, VectorOf(v), 0);
      assert forall i | 0 <= i < n :: v[i] == VectorOf(v)(i) == 0.0;
    }
  }

  // --------------------------------------------------- Gauss-Jordan elimination

  /** m with the first i columns, and the elements above row r in column i, taken for
      those of the unit matrix. */
  ghost function Unified(m: Matrix, i: nat, r: nat): Matrix {
    (p, c) => if c < i || (c == i && (p == i || p < r)) then (if p == c then 1.0 else 0.0) else m(p, c)
  }

  lemma UnifiedStep(n: nat, m: Matrix, i: nat, r: nat)
    requires i < n && r < n && r != i
    ensures Agree(n, AddRow(Unified(m, i, r), r, i, m(r, i)), Unified(Eliminated(m, i, r, m(r, i)), i, r + 1))
  {
    var f, u := m(r, i), Unified(m, i, r);
    var w, z := AddRow(u, r, i, f), Unified(Eliminated(m, i, r, f), i, r + 1);
    forall p, c | 0 <= p < n && 0 <= c < n
      ensures w(p, c) == z(p, c)
    {
      if p == r && c < i {
        assert u(i, c) == 0.0;
        assert f * u(i, c) == 0.0;
      }
    }
  }

  lemma UnifiedSkip(n: nat, m: Matrix, i: nat)
    ensures Agree(n, Unified(m, i, i), Unified(m, i, i + 1))
  {
  }

  lemma UnifiedNext(n: nat, m: Matrix, i: nat)
    ensures Agree(n, Unified(m, i, n), Before(m, i + 1))
  {
  }

  /** The first i columns are those of the unit matrix. */
  ghost function Before(m: Matrix, i: nat): Matrix {
    (p, c) => if c < i then (if p == c then 1.0 else 0.0) else m(p, c)
  }

  /** Row i divided by its element in column i, to the right of that column. */
  ghost function Normalized(m: Matrix, i: nat, g: real): Matrix {
    (p, c) => if p == i && c > i then m(p, c) * g else m(p, c)
  }

  lemma UnifiedStart(n: nat, m: Matrix, i: nat, g: real)
    requires i < n && m(i, i) * g == 1.0
    ensures Agree(n, ScaleRow(Before(m, i), i, g), Unified(Normalized(m, i, g), i, 0))
  {
    var w, z, u := ScaleRow(Before(m, i), i, g), Unified(Normalized(m, i, g), i, 0), Before(m, i);
    forall p, c | 0 <= p < n && 0 <= c < n
      ensures w(p, c) == z(p, c)
    {
      if p == i && c <= i { assert w(p, c) == m(i, i) * g || u(p, c) * g == 0.0; }
    }
  }

  lemma BeforeSwap(n: nat, m: Matrix, i: nat, q: nat)
    requires i <= q < n
    ensures Agree(n, SwapRows(Before(m, i), i, q), Before(SwapRows(m, i, q), i))
  {
  }

  lemma BeforeSingular(n: nat, m: Matrix, i: nat)
    requires i < n && forall p | i <= p < n :: m(p, i) == 0.0
    ensures Singular(n, Before(m, i))
  {
    var u := Before(m, i);
    var s := seq(n, k => if k < i then m(k, i) else if k == i then -1.0 else 0.0);
    forall p | 0 <= p < n
      ensures Apply(n, u, VectorOf(s))(p) == 0.0
    {
      TruncatedRow(n, u, p, VectorOf(s), i);
      if p < i {
        UnitRow(i, u, p, VectorOf(s));
      } else {
        SumZero(i, Times(Row(u, p), VectorOf(s)));
      }
    }
    assert s[i] != 0.0;
    assert NullVector(n, u, s);
  }

  lemma UnitRow(n: nat, u: Matrix, p: nat, x: Vector)
    requires p < n && forall c | 0 <= c < n :: u(p, c) == if p == c then 1.0 else 0.0
    ensures Apply(n, u, x)(p) == x(p)
  {
    forall c | 0 <= c < n && c != p
      ensures Times(Row(u, p), x)(c) == 0.0
    {
      TimesZero(Row(u, p), x, c);
    }
    SumSingle(n, p, Times(Row(u, p), x));
  }

  lemma UnitSolves(n: nat, m: Matrix, v: Vector)
    ensures Solves(n, Before(m, n), v, v) && !Singular(n, Before(m, n))
  {
    var u := Before(m, n);
    forall p, x: Vector | 0 <= p < n
      ensures Apply(n, u, x)(p) == x(p)
    {
      UnitRow(n, u, p, x);
    }
    if s :| NullVector(n, u, s) {
      assert forall i | 0 <= i < n :: s[i] == VectorOf(s)(i) == Apply(n, u, VectorOf(s))(i) == 0.0;
    }
  }
}
