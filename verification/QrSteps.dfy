/** What each step of the Householder factorization with column pivoting keeps. */
module QrSteps {
  import opened Arithmetic
  import opened LinearAlgebra
  import opened LinearSystems
  import opened LuFactors
  import opened MatrixStore
  import opened Reflections
  import opened RowOperations

  /** The Householder vector stored below the diagonal of column c. */
  ghost function Stored(m: Matrix, c: int): Vector {
    k => if k < c then 0.0 else if k == c then 1.0 else m(k, c)
  }

  /** The first c reflections, one after the other. */
  ghost function ReflectAll(n: nat, m: Matrix, t: Vector, c: nat, w: Vector): Vector {
    if c == 0 then w else Reflect(n, Stored(m, c - 1), t(c - 1), ReflectAll(n, m, t, c - 1, w))
  }

  /** The matrix with the stored vectors of the first c columns taken for zeros. */
  ghost function Upward(m: Matrix, c: nat): Matrix {
    (i, j) => if j < c && i > j then 0.0 else m(i, j)
  }

  /** The columns of a in the order p. */
  ghost function Arranged(a: Matrix, p: seq<int>): Matrix {
    (i, j) => if 0 <= j < |p| then a(i, p[j]) else 0.0
  }

  /** Column j of the packed matrix is the reflected column p[j] of a. */
  ghost predicate ColumnIs(n: nat, m: Matrix, a: Matrix, t: Vector, p: seq<int>, c: nat, j: nat) {
    Same(n, Column(Upward(m, c), j), ReflectAll(n, m, t, c, Column(Arranged(a, p), j)))
  }

  ghost predicate Mirrors(n: nat, m: Matrix, t: Vector, c: nat) {
    forall k | 0 <= k < c :: Mirror(n, Stored(m, k), t(k))
  }

  /** The first c reflections turn a, with its columns in the order p, into the
      packed matrix. */
  ghost predicate Reflected(n: nat, m: Matrix, a: Matrix, t: Vector, p: seq<int>, c: nat) {
    && |p| == n && Permutation(p) && c <= n && Mirrors(n, m, t, c)
    && forall j | 0 <= j < n :: ColumnIs(n, m, a, t, p, c, j)
  }

  /** The reflections before column c are the same. */
  ghost predicate SameStored(m: Matrix, w: Matrix, t: Vector, s: Vector, c: nat) {
    (forall i, j | 0 <= j < c && i > j :: m(i, j) == w(i, j)) && (forall k | 0 <= k < c :: t(k) == s(k))
  }

  lemma {:induction false} ReflectAllCongruence(n: nat, m: Matrix, w: Matrix, t: Vector, s: Vector, c: nat, x: Vector, y: Vector)
    requires SameStored(m, w, t, s, c) && Same(n, x, y)
    ensures Same(n, ReflectAll(n, m, t, c, x), ReflectAll(n, w, s, c, y))
  {
    if c > 0 {
      ReflectAllCongruence(n, m, w, t, s, c - 1, x, y);
      ReflectCongruence(n, Stored(m, c - 1), Stored(w, c - 1), t(c - 1),
                        ReflectAll(n, m, t, c - 1, x), ReflectAll(n, w, s, c - 1, y));
    }
  }

  lemma MirrorsCongruence(n: nat, m: Matrix, w: Matrix, t: Vector, s: Vector, c: nat)
    requires SameStored(m, w, t, s, c) && Mirrors(n, m, t, c)
    ensures Mirrors(n, w, s, c)
  {
    forall k | 0 <= k < c
      ensures Mirror(n, Stored(w, k), s(k))
    {
      assert Mirror(n, Stored(m, k), t(k));
      DotCongruence(n, Stored(m, k), Stored(w, k), Stored(m, k), Stored(w, k));
    }
  }

  lemma ReflectedAtStart(n: nat, a: Matrix, t: Vector, p: seq<int>)
    requires |p| == n && forall i | 0 <= i < n :: p[i] == i
    ensures Reflected(n, a, a, t, p, 0)
  {
    forall i | 0 <= i < n ensures i in p { assert p[i] == i; }
  }

  // ----------------------------------------------------------- column exchange

  ghost function SwapColumns(m: Matrix, r: int, q: int): Matrix {
    (i, j) => if j == r then m(i, q) else if j == q then m(i, r) else m(i, j)
  }

  lemma ColumnsSwapped(n: nat, m: Matrix, a: Matrix, t: Vector, p: seq<int>, c: nat, q: nat)
    requires Reflected(n, m, a, t, p, c) && c <= q < n
    ensures Reflected(n, SwapColumns(m, c, q), a, t, Swapped(p, c, q), c)
  {
    var w, s := SwapColumns(m, c, q), Swapped(p, c, q);
    SwapKeepsPermutation(p, c, q);
    MirrorsCongruence(n, m, w, t, t, c);
    forall j | 0 <= j < n
      ensures ColumnIs(n, w, a, t, s, c, j)
    {
      var k := if j == c then q else if j == q then c else j;
      assert ColumnIs(n, m, a, t, p, c, k);
      ReflectAllCongruence(n, m, w, t, t, c, Column(Arranged(a, p), k), Column(Arranged(a, s), j));
      assert Same(n, Column(Upward(w, c), j), Column(Upward(m, c), k));
    }
  }

  // ------------------------------------------------------- a single reflection

  /** Column c below its diagonal. */
  ghost function Tail(m: Matrix, c: int): Vector {
    k => if k > c then m(k, c) else 0.0
  }

  /** The Householder vector stored, and -g on the diagonal; h is the reciprocal of b. */
  ghost function Created(m: Matrix, c: int, h: real, g: real): Matrix {
    (i, j) => if j == c && i > c then m(i, j) * h else if j == c && i == c then -g else m(i, j)
  }

  /** The reflection of the columns right of c. */
  ghost function Applied(n: nat, m: Matrix, c: int, t: real): Matrix {
    (i, j) => if j > c then Reflect(n, Stored(m, c), t, Column(m, j))(i) else m(i, j)
  }

  /** The numbers of the code: s is the length of the tail, a the diagonal element. */
  ghost predicate Numbers(n: nat, m: Matrix, c: nat, s: real, g: real, b: real, h: real, t: real) {
    && c < n && s * s == Dot(n, Tail(m, c), Tail(m, c))
    && g * g == m(c, c) * m(c, c) + s * s && b == m(c, c) + g
    && b * h == 1.0 && t * g == b && g != 0.0
  }

  lemma UnitPlusTail(n: nat, m: Matrix, c: nat, h: real, g: real, x: Vector)
    requires c < n
    ensures Dot(n, Stored(Created(m, c, h, g), c), x) == x(c) + h * Dot(n, Tail(m, c), x)
  {
    var u := Stored(Created(m, c, h, g), c);
    var f, e := Times(Tail(m, c), x), k => if k == c then x(c) else 0.0;
    SumSingle(n, c, e);
    SumLinear(n, 1.0, e, h, f);
    forall k | 0 <= k < n
      ensures Times(u, x)(k) == Combine(1.0, e, h, f)(k)
    {
      TailTerm(m(k, c), h, x(k));
    }
    SumCongruence(n, Times(u, x), Combine(1.0, e, h, f));
  }

  lemma TailTerm(m: real, h: real, x: real)
    ensures (m * h) * x == h * (m * x) && 0.0 * x == 0.0 && 1.0 * x == x
  {
  }

  lemma CreatedIsMirror(n: nat, m: Matrix, c: nat, s: real, g: real, b: real, h: real, t: real)
    requires Numbers(n, m, c, s, g, b, h, t)
    ensures Mirror(n, Stored(Created(m, c, h, g), c), t)
  {
    var u, d := Stored(Created(m, c, h, g), c), Tail(m, c);
    UnitPlusTail(n, m, c, h, g, u);
    DotCommutes(n, d, u);
    UnitPlusTail(n, m, c, h, g, d);
    MirrorFactor(m(c, c), s * s, g, b, h, t);
  }

  lemma MirrorFactor(a: real, q: real, g: real, b: real, h: real, t: real)
    requires g * g == a * a + q && b == a + g && b * h == 1.0 && t * g == b && g != 0.0
    ensures t * (1.0 + h * (0.0 + h * q)) == 2.0
  {
    assert b * b + q == 2.0 * (g * b);
    assert t * g * (h * h) * (b * b + q) == 2.0 * (t * g * (h * h)) * (g * b);
    assert t * g * (h * h) * (b * b) == t * g by { assert (h * h) * (b * b) == (b * h) * (b * h); TimesOne(t * g, (b * h) * (b * h)); }
    assert (h * h) * (g * b) == h * g * (b * h);
    TimesOne(h * g, b * h);
    assert t * g * (h * h) * (b * b + q) == t * g + t * g * (h * h) * q;
    assert t * g * (h * h) * (b * b + q) == 2.0 * (t * g * (h * g));
    assert t * g * (h * g) == (b * h) * g;
    TimesOne(g, b * h);
    assert (t * (1.0 + h * (h * q))) * g == 2.0 * g;
    SameFactor(t * (1.0 + h * (h * q)), 2.0, g);
  }

  /** The reflection turns column c into (-g, 0, ..., 0) from the diagonal on. */
  lemma ColumnZeroed(n: nat, m: Matrix, c: nat, s: real, g: real, b: real, h: real, t: real, i: nat)
    requires Numbers(n, m, c, s, g, b, h, t) && i < n
    ensures Reflect(n, Stored(Created(m, c, h, g), c), t, Column(m, c))(i)
         == if i < c then m(i, c) else if i == c then -g else 0.0
  {
    var u, x := Stored(Created(m, c, h, g), c), Column(m, c);
    UnitPlusTail(n, m, c, h, g, x);
    SumCongruence(n, Times(Tail(m, c), x), Times(Tail(m, c), Tail(m, c)));
    FactorIsB(m(c, c), s * s, g, b, h, t);
    ZeroedElement(b, h, m(i, c));
  }

  lemma FactorIsB(a: real, q: real, g: real, b: real, h: real, t: real)
    requires g * g == a * a + q && b == a + g && b * h == 1.0 && t * g == b && g != 0.0
    ensures t * (a + h * q) == b
  {
    assert a * b + q == g * b;
    assert h * (a * b + q) == a * (b * h) + h * q;
    TimesOne(a, b * h);
    assert h * (g * b) == g * (b * h);
    TimesOne(g, b * h);
    assert a + h * q == g;
  }

  lemma ZeroedElement(b: real, h: real, x: real)
    requires b * h == 1.0
    ensures x - b * (x * h) == 0.0
  {
    assert b * (x * h) == x * (b * h);
    TimesOne(x, b * h);
  }

  /** Column j of w is column j of m after one more reflection. */
  ghost predicate Extends(n: nat, m: Matrix, w: Matrix, c: nat, t: real, j: nat) {
    Same(n, Column(Upward(w, c + 1), j), Reflect(n, Stored(w, c), t, Column(Upward(m, c), j)))
  }

  /** Reflecting the columns from c on extends the reflections by one. */
  lemma Extended(n: nat, m: Matrix, w: Matrix, a: Matrix, t: Vector, s: Vector, p: seq<int>, c: nat)
    requires Reflected(n, m, a, t, p, c) && c < n && SameStored(m, w, t, s, c)
    requires Mirror(n, Stored(w, c), s(c))
    requires forall j | 0 <= j < n :: Extends(n, m, w, c, s(c), j)
    ensures Reflected(n, w, a, s, p, c + 1)
  {
    MirrorsCongruence(n, m, w, t, s, c);
    var next := c + 1;
    forall j | 0 <= j < n
      ensures ColumnIs(n, w, a, s, p, next, j)
    {
      assert Extends(n, m, w, c, s(c), j);
      var x := Column(Arranged(a, p), j);
      assert ColumnIs(n, m, a, t, p, c, j);
      ReflectAllCongruence(n, m, w, t, s, c, x, x);
      ReflectCongruence(n, Stored(w, c), Stored(w, c), s(c), Column(Upward(m, c), j), ReflectAll(n, w, s, c, x));
    }
  }

  /** Columns before c have nothing left for the reflection to act on. */
  lemma EarlierColumn(n: nat, m: Matrix, w: Matrix, c: nat, j: nat, t: real)
    requires j < c < n && forall i | 0 <= i <= j :: w(i, j) == m(i, j)
    ensures Extends(n, m, w, c, t, j)
  {
    ReflectDisjoint(n, Stored(w, c), t, Column(Upward(m, c), j));
  }

  /** One step with a reflection. */
  lemma ReflectionStep(n: nat, m: Matrix, a: Matrix, t: Vector, p: seq<int>, c: nat, s: real, g: real, b: real, h: real, r: Vector)
    requires Reflected(n, m, a, t, p, c) && Numbers(n, m, c, s, g, b, h, r(c))
    requires forall k | 0 <= k < c :: r(k) == t(k)
    ensures Reflected(n, Applied(n, Created(m, c, h, g), c, r(c)), a, r, p, c + 1)
  {
    var v := Created(m, c, h, g);
    var w := Applied(n, v, c, r(c));
    CreatedIsMirror(n, m, c, s, g, b, h, r(c));
    DotCongruence(n, Stored(v, c), Stored(w, c), Stored(v, c), Stored(w, c));
    forall j | 0 <= j < n
      ensures Extends(n, m, w, c, r(c), j)
    {
      if j < c {
        EarlierColumn(n, m, w, c, j, r(c));
      } else {
        LaterColumn(n, m, c, s, g, b, h, r(c), j);
      }
    }
    Extended(n, m, w, a, t, r, p, c);
  }

  lemma LaterColumn(n: nat, m: Matrix, c: nat, s: real, g: real, b: real, h: real, t: real, j: nat)
    requires Numbers(n, m, c, s, g, b, h, t) && c <= j < n
    ensures var w := Applied(n, Created(m, c, h, g), c, t);
            Extends(n, m, w, c, t, j)
  {
    var v := Created(m, c, h, g);
    var w := Applied(n, v, c, t);
    ReflectCongruence(n, Stored(w, c), Stored(v, c), t, Column(Upward(m, c), j), Column(m, j));
    if j == c {
      forall i | 0 <= i < n
        ensures Column(Upward(w, c + 1), c)(i) == Reflect(n, Stored(v, c), t, Column(m, c))(i)
      {
        ColumnZeroed(n, m, c, s, g, b, h, t, i);
      }
    } else {
      ReflectCongruence(n, Stored(v, c), Stored(v, c), t, Column(m, j), Column(v, j));
    }
  }

  /** One step without: the column is zero below its diagonal already. */
  lemma EmptyStep(n: nat, m: Matrix, a: Matrix, t: Vector, p: seq<int>, c: nat, r: Vector)
    requires Reflected(n, m, a, t, p, c) && c < n && Dot(n, Tail(m, c), Tail(m, c)) == 0.0
    requires r(c) == 0.0 && forall k | 0 <= k < c :: r(k) == t(k)
    ensures Reflected(n, m, a, r, p, c + 1)
  {
    SquaresZero(n, Tail(m, c));
    forall j | 0 <= j < n
      ensures Extends(n, m, m, c, r(c), j)
    {
      forall i | 0 <= i < n
        ensures Column(Upward(m, c + 1), j)(i) == Column(Upward(m, c), j)(i)
      {
        if j == c && i > c { assert Tail(m, c)(i) == 0.0; }
      }
    }
    Extended(n, m, m, a, t, r, p, c);
  }

  lemma {:induction false} SquaresZero(n: nat, f: Vector)
    requires Dot(n, f, f) == 0.0
    ensures forall k | 0 <= k < n :: f(k) == 0.0
  {
    if n > 0 {
      SquaresNonNegative(n - 1, f);
      SquareZero(Dot(n - 1, f, f), f(n - 1), f(n - 1) * f(n - 1));
      SquaresZero(n - 1, f);
    }
  }

  lemma SquareZero(d: real, x: real, q: real)
    requires d >= 0.0 && q == x * x && d + q == 0.0
    ensures d == 0.0 && x == 0.0
  {
    assert q >= 0.0;
    var p := Square(x);
  }

  lemma {:induction false} SquaresNonNegative(n: nat, f: Vector)
    ensures Dot(n, f, f) >= 0.0
  {
    if n > 0 { SquaresNonNegative(n - 1, f); }
  }

  // --------------------------------------------------------- the finished factors

  lemma {:induction false} ReflectAllInjective(n: nat, m: Matrix, t: Vector, c: nat, x: Vector, y: Vector)
    requires Mirrors(n, m, t, c) && Same(n, ReflectAll(n, m, t, c, x), ReflectAll(n, m, t, c, y))
    ensures Same(n, x, y)
  {
    if c > 0 {
      assert Mirror(n, Stored(m, c - 1), t(c - 1));
      ReflectInjective(n, Stored(m, c - 1), t(c - 1), ReflectAll(n, m, t, c - 1, x), ReflectAll(n, m, t, c - 1, y));
      assert Mirrors(n, m, t, c - 1);
      ReflectAllInjective(n, m, t, c - 1, x, y);
    }
  }

  /** The reflected columns as a matrix. */
  ghost function AllReflected(n: nat, m: Matrix, t: Vector, c: nat, e: Matrix): Matrix {
    (i, j) => ReflectAll(n, m, t, c, Column(e, j))(i)
  }

  lemma NextColumn(n: nat, m: Matrix, t: Vector, c: nat, e: Matrix, i: nat, j: nat)
    requires c > 0 && i < n
    ensures AllReflected(n, m, t, c, e)(i, j) == ReflectColumns(n, Stored(m, c - 1), t(c - 1), AllReflected(n, m, t, c - 1, e))(i, j)
  {
    var x, d := ReflectAll(n, m, t, c - 1, Column(e, j)), AllReflected(n, m, t, c - 1, e);
    ReflectCongruence(n, Stored(m, c - 1), Stored(m, c - 1), t(c - 1), x, Column(d, j));
    assert AllReflected(n, m, t, c, e)(i, j) == ReflectAll(n, m, t, c, Column(e, j))(i);
  }

  lemma {:induction false} AllApply(n: nat, m: Matrix, t: Vector, c: nat, e: Matrix, y: Vector)
    ensures Same(n, Apply(n, AllReflected(n, m, t, c, e), y), ReflectAll(n, m, t, c, Apply(n, e, y)))
  {
    if c == 0 {
      forall i | 0 <= i < n
        ensures Apply(n, AllReflected(n, m, t, 0, e), y)(i) == Apply(n, e, y)(i)
      {
        forall j | 0 <= j < n
          ensures AllReflected(n, m, t, 0, e)(i, j) == e(i, j)
        {
          assert ReflectAll(n, m, t, c, Column(e, j)) == Column(e, j);
        }
        OtherRow(n, e, AllReflected(n, m, t, 0, e), i, i, y);
      }
    } else {
      var d, u, s := AllReflected(n, m, t, c - 1, e), Stored(m, c - 1), t(c - 1);
      AllApply(n, m, t, c - 1, e, y);
      ReflectCongruence(n, u, u, s, Apply(n, d, y), ReflectAll(n, m, t, c - 1, Apply(n, e, y)));
      forall i | 0 <= i < n
        ensures Apply(n, AllReflected(n, m, t, c, e), y)(i) == Reflect(n, u, s, Apply(n, d, y))(i)
      {
        ReflectApply(n, u, s, d, y, i);
        forall j | 0 <= j < n
          ensures AllReflected(n, m, t, c, e)(i, j) == ReflectColumns(n, u, s, d)(i, j)
        {
          NextColumn(n, m, t, c, e, i, j);
        }
        OtherRow(n, ReflectColumns(n, u, s, d), AllReflected(n, m, t, c, e), i, i, y);
      }
    }
  }

  /** What the packed upper triangle makes of y. */
  lemma FactoredApply(n: nat, m: Matrix, a: Matrix, t: Vector, p: seq<int>, y: Vector)
    requires Reflected(n, m, a, t, p, n)
    ensures Same(n, Apply(n, Upper(Doolittle, m), y), ReflectAll(n, m, t, n, Apply(n, Arranged(a, p), y)))
  {
    var e := Arranged(a, p);
    AllApply(n, m, t, n, e, y);
    forall i | 0 <= i < n
      ensures Apply(n, Upper(Doolittle, m), y)(i) == Apply(n, AllReflected(n, m, t, n, e), y)(i)
    {
      forall j | 0 <= j < n
        ensures Upper(Doolittle, m)(i, j) == AllReflected(n, m, t, n, e)(i, j)
      {
        assert ColumnIs(n, m, a, t, p, n, j);
        assert Column(Upward(m, n), j)(i) == ReflectAll(n, m, t, n, Column(e, j))(i);
      }
      OtherRow(n, AllReflected(n, m, t, n, e), Upper(Doolittle, m), i, i, y);
    }
  }

  /** The upper triangular system has the solutions of the arranged one. */
  lemma FactoredSolves(n: nat, m: Matrix, a: Matrix, t: Vector, p: seq<int>, y: Vector, b: Vector, v: Vector)
    requires Reflected(n, m, a, t, p, n) && Same(n, v, ReflectAll(n, m, t, n, b))
    ensures Solves(n, Upper(Doolittle, m), y, v) <==> Solves(n, Arranged(a, p), y, b)
  {
    FactoredApply(n, m, a, t, p, y);
    var z := Apply(n, Arranged(a, p), y);
    if Solves(n, Upper(Doolittle, m), y, v) {
      assert Same(n, ReflectAll(n, m, t, n, z), ReflectAll(n, m, t, n, b));
      ReflectAllInjective(n, m, t, n, z, b);
    }
    if Solves(n, Arranged(a, p), y, b) {
      assert Same(n, z, b);
      ReflectAllCongruence(n, m, m, t, t, n, z, b);
    }
  }

  lemma ArrangedRow(n: nat, a: Matrix, p: seq<int>, x: Vector, i: nat)
    requires |p| == n && Permutation(p) && i < n
    ensures Apply(n, Arranged(a, p), Ordered(x, p))(i) == Apply(n, a, x)(i)
  {
    var f := Times(Row(a, i), x);
    hide Sum;
    SumOrdered(n, f, p);
    var g := Times(Row(Arranged(a, p), i), Ordered(x, p));
    assert forall k | 0 <= k < n :: g(k) == Ordered(f, p)(k);
    SumCongruence(n, g, Ordered(f, p));
  }

  /** Unknowns in the order p. */
  lemma ArrangedSolves(n: nat, a: Matrix, p: seq<int>, x: Vector, b: Vector)
    requires |p| == n && Permutation(p)
    ensures Solves(n, Arranged(a, p), Ordered(x, p), b) <==> Solves(n, a, x, b)
  {
    hide Apply, Arranged, Ordered, Permutation;
    forall i | 0 <= i < n
      ensures Apply(n, Arranged(a, p), Ordered(x, p))(i) == Apply(n, a, x)(i)
    {
      ArrangedRow(n, a, p, x, i);
    }
  }

  // ---------------------------------------------------- when a matrix is singular

  lemma {:induction false} ReflectAllZeros(n: nat, m: Matrix, t: Vector, c: nat)
    ensures Same(n, Zeros(), ReflectAll(n, m, t, c, Zeros()))
  {
    if c > 0 {
      var u := Stored(m, c - 1);
      ReflectAllZeros(n, m, t, c - 1);
      ReflectCongruence(n, u, u, t(c - 1), Zeros(), ReflectAll(n, m, t, c - 1, Zeros()));
      ReflectDisjoint(n, u, t(c - 1), Zeros());
    }
  }

  lemma ArrangedSingular(n: nat, a: Matrix, p: seq<int>)
    requires |p| == n && Permutation(p)
    ensures Singular(n, Arranged(a, p)) <==> Singular(n, a)
  {
    if s :| NullVector(n, a, s) {
      var z := seq(n, k requires 0 <= k < n => s[p[k]]);
      ArrangedNull(n, a, p, s, z);
    }
    if z :| NullVector(n, Arranged(a, p), z) {
      var s := seq(n, j requires 0 <= j < n => z[Position(p, j)]);
      forall k | 0 <= k < n
        ensures z[k] == s[p[k]]
      {
        OnePlace(p, Position(p, p[k]), k);
      }
      ArrangedNull(n, a, p, s, z);
    }
  }

  /** A null vector in the order p. */
  lemma ArrangedNull(n: nat, a: Matrix, p: seq<int>, s: seq<real>, z: seq<real>)
    requires |p| == n == |s| == |z| && Permutation(p) && forall k | 0 <= k < n :: z[k] == s[p[k]]
    ensures NullVector(n, a, s) <==> NullVector(n, Arranged(a, p), z)
  {
    ArrangedSolves(n, a, p, VectorOf(s), Zeros());
    forall x: Vector, y: Vector | Same(n, x, y)
      ensures Solves(n, Arranged(a, p), x, Zeros()) <==> Solves(n, Arranged(a, p), y, Zeros())
    {
      forall i | 0 <= i < n
        ensures Apply(n, Arranged(a, p), x)(i) == Apply(n, Arranged(a, p), y)(i)
      {
        ApplyCongruence(n, Arranged(a, p), i, Arranged(a, p), i, x, y);
      }
    }
    assert Same(n, VectorOf(z), Ordered(VectorOf(s), p));
    HomogeneousSolution(n, a, s);
    HomogeneousSolution(n, Arranged(a, p), z);
    if i :| 0 <= i < n && s[i] != 0.0 {
      assert z[Position(p, i)] != 0.0;
    }
  }

  lemma {:induction false} ZeroOnDiagonal(n: nat, u: Matrix, i: nat)
    requires i < n && u(i, i) == 0.0 && forall r, c | 0 <= c < r < n :: u(r, c) == 0.0
    ensures Singular(n, u)
  {
    if c :| 0 <= c < i && u(c, c) == 0.0 {
      ZeroOnDiagonal(n, u, c);
    } else {
      ClearedSingular(n, u, i);
      SingularOfAgreeing(n, Cleared(u, i, i + 1), u);
    }
  }

  /** The factored matrix is singular exactly when the upper triangle has a zero on
      its diagonal. */
  lemma DiagonalDecides(n: nat, m: Matrix, a: Matrix, t: Vector, p: seq<int>)
    requires Reflected(n, m, a, t, p, n)
    ensures Singular(n, a) <==> exists r | 0 <= r < n :: m(r, r) == 0.0
  {
    var u, e := Upper(Doolittle, m), Arranged(a, p);
    ReflectAllZeros(n, m, t, n);
    forall y: Vector
      ensures Solves(n, e, y, Zeros()) <==> Solves(n, u, y, Zeros())
    {
      FactoredSolves(n, m, a, t, p, y, Zeros(), Zeros());
    }
    assert Kept(n, e, Zeros(), u, Zeros());
    SingularKept(n, e, Zeros(), u, Zeros());
    ArrangedSingular(n, a, p);
    if r :| 0 <= r < n && m(r, r) == 0.0 {
      ZeroOnDiagonal(n, u, r);
    } else {
      UpperRegular(n, m);
    }
  }
}
