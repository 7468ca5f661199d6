/** The value of a packed LU factorization.

    Both factorizations overwrite the matrix with its two triangular factors:
    Crout's definition leaves ones on the diagonal of the upper factor,
    Doolittle's on the diagonal of the lower one. */
module LuFactors {
  import opened Arithmetic
  import opened LinearAlgebra
  import opened LinearSystems

  datatype Scheme = Crout | Doolittle

  /** The lower factor packed into m. */
  ghost function Lower(s: Scheme, m: Matrix): Matrix {
    (i, k) => if k < i then m(i, k) else if k == i then (if s == Crout then m(i, i) else 1.0) else 0.0
  }

  /** The upper factor packed into m. */
  ghost function Upper(s: Scheme, m: Matrix): Matrix {
    (k, j) => if k < j then m(k, j) else if k == j then (if s == Crout then 1.0 else m(k, k)) else 0.0
  }

  /** The scalar product both factorizations subtract from an element. */
  ghost function Inner(m: Matrix, r: int, c: int, k: nat): real {
    Sum(k, Times(Row(m, r), Column(m, c)))
  }

  /** Element (r, c) of the product of the two packed factors. */
  ghost function Entry(s: Scheme, m: Matrix, r: nat, c: nat): real {
    if r < c then Inner(m, r, c, r) + (if s == Crout then m(r, r) * m(r, c) else m(r, c))
    else if r == c then Inner(m, r, c, c) + m(r, c)
    else Inner(m, r, c, c) + (if s == Crout then m(r, c) else m(r, c) * m(c, c))
  }

  lemma InnerCongruence(m: Matrix, w: Matrix, r: int, r': int, c: int, k: nat)
    requires forall t | 0 <= t < k :: m(r, t) == w(r', t) && m(t, c) == w(t, c)
    ensures Inner(m, r, c, k) == Inner(w, r', c, k)
  {
    SumCongruence(k, Times(Row(m, r), Column(m, c)), Times(Row(w, r'), Column(w, c)));
  }

  lemma EntryIsProduct(s: Scheme, m: Matrix, n: nat, r: nat, c: nat)
    requires r < n && c < n
    ensures Entry(s, m, r, c) == Multiply(n, Lower(s, m), Upper(s, m))(r, c)
  {
    var f := Times(Row(Lower(s, m), r), Column(Upper(s, m), c));
    var k := if r < c then r else c;
    SumTruncate(k + 1, n, f);
    assert Sum(k + 1, f) == Sum(k, f) + f(k);
    SumCongruence(k, f, Times(Row(m, r), Column(m, c)));
    hide Sum;
    LastFactor(s, m, r, c, k);
  }

  /** The last summand of the product of the factors. */
  lemma LastFactor(s: Scheme, m: Matrix, r: nat, c: nat, k: nat)
    requires k == if r < c then r else c
    ensures Entry(s, m, r, c) == Inner(m, r, c, k) + Times(Row(Lower(s, m), r), Column(Upper(s, m), c))(k)
  {
    hide Inner;
  }

  /** m holds the factors of the matrix a whose rows were exchanged as p says. */
  ghost predicate Factors(s: Scheme, n: nat, m: Matrix, p: seq<int>, a: Matrix) {
    && |p| == n
    && (forall r, c | 0 <= r < n && 0 <= c < n :: Entry(s, m, r, c) == a(p[r], c))
    && (forall c | 0 <= c < n :: m(c, c) != 0.0)
  }

  lemma FactorsOfAgreeing(s: Scheme, n: nat, m: Matrix, p: seq<int>, a: Matrix, e: Matrix)
    requires Factors(s, n, m, p, a) && Agree(n, a, e) && Permutation(p)
    ensures Factors(s, n, m, p, e)
  {
  }

  /** The matrix that the packed factors belong to, its rows put back in order. */
  ghost function Unpacked(s: Scheme, m: Matrix, p: seq<int>): Matrix
    requires Permutation(p)
  {
    (i, c) => if 0 <= i < |p| && 0 <= c then Entry(s, m, Position(p, i), c) else 0.0
  }

  lemma UnpackedFactors(s: Scheme, n: nat, m: Matrix, p: seq<int>)
    requires |p| == n && Permutation(p) && forall c | 0 <= c < n :: m(c, c) != 0.0
    ensures Factors(s, n, m, p, Unpacked(s, m, p))
  {
    forall r, c | 0 <= r < n && 0 <= c < n
      ensures Entry(s, m, r, c) == Unpacked(s, m, p)(p[r], c)
    {
      OnePlace(p, Position(p, p[r]), r);
    }
  }

  // ----------------------------------------------------- triangular systems

  lemma LowerRow(s: Scheme, m: Matrix, n: nat, i: nat, y: Vector)
    requires i < n
    ensures Apply(n, Lower(s, m), y)(i)
         == Sum(i, Times(Row(m, i), y)) + (if s == Crout then m(i, i) * y(i) else y(i))
  {
    LowerTruncated(s, m, n, i, y);
    TimesLast(i, Row(Lower(s, m), i), y);
    LowerTerms(s, m, i, y);
  }

  lemma LowerTruncated(s: Scheme, m: Matrix, n: nat, i: nat, y: Vector)
    requires i < n
    ensures Apply(n, Lower(s, m), y)(i) == Sum(i + 1, Times(Row(Lower(s, m), i), y))
  {
    var f := Times(Row(Lower(s, m), i), y);
    forall k | i < k < n
      ensures f(k) == 0.0
    {
      TimesZero(Row(Lower(s, m), i), y, k);
    }
    SumTruncate(i + 1, n, f);
  }

  lemma LowerTerms(s: Scheme, m: Matrix, i: nat, y: Vector)
    ensures Sum(i, Times(Row(Lower(s, m), i), y)) == Sum(i, Times(Row(m, i), y))
  {
    SumCongruence(i, Times(Row(Lower(s, m), i), y), Times(Row(m, i), y));
  }

  /** The part of m right of its diagonal. */
  ghost function Above(m: Matrix): Matrix {
    (i, k) => if i < k then m(i, k) else 0.0
  }

  lemma UpperRow(s: Scheme, m: Matrix, n: nat, i: nat, x: Vector)
    requires i < n
    ensures Apply(n, Upper(s, m), x)(i)
         == Sum(n, Times(Row(Above(m), i), x)) + (if s == Crout then x(i) else m(i, i) * x(i))
  {
    var f, g := Times(Row(Upper(s, m), i), x), Times(Row(Above(m), i), x);
    var d: Vector := k => if k == i then f(i) else 0.0;
    SumSingle(n, i, d);
    SumLinear(n, 1.0, g, 1.0, d);
    SumCongruence(n, f, Combine(1.0, g, 1.0, d));
  }

  lemma {:induction false} LowerIsInjective(s: Scheme, m: Matrix, n: nat, y: Vector, i: nat)
    requires i <= n && (forall c | 0 <= c < n :: m(c, c) != 0.0)
    requires forall k | 0 <= k < n :: Apply(n, Lower(s, m), y)(k) == 0.0
    ensures forall k | 0 <= k < i :: y(k) == 0.0
  {
    if i > 0 {
      LowerIsInjective(s, m, n, y, i - 1);
      LowerRow(s, m, n, i - 1, y);
      SumZero(i - 1, Times(Row(m, i - 1), y));
    }
  }

  lemma {:induction false} UpperIsInjective(s: Scheme, m: Matrix, n: nat, x: Vector, i: nat)
    requires i <= n && (forall c | 0 <= c < n :: m(c, c) != 0.0)
    requires forall k | 0 <= k < n :: Apply(n, Upper(s, m), x)(k) == 0.0
    ensures forall k | i <= k < n :: x(k) == 0.0
    decreases n - i
  {
    if i < n {
      UpperIsInjective(s, m, n, x, i + 1);
      UpperRow(s, m, n, i, x);
      SumZero(n, Times(Row(Above(m), i), x));
    }
  }

  // -------------------------------------------------------- factored systems

  lemma FactoredRow(s: Scheme, n: nat, m: Matrix, p: seq<int>, a: Matrix, x: Vector, r: nat)
    requires Factors(s, n, m, p, a) && r < n
    ensures Apply(n, a, x)(p[r]) == Apply(n, Lower(s, m), Apply(n, Upper(s, m), x))(r)
  {
    var lu := Multiply(n, Lower(s, m), Upper(s, m));
    forall c | 0 <= c < n
      ensures a(p[r], c) == lu(r, c)
    {
      EntryIsProduct(s, m, n, r, c);
    }
    ApplyCongruence(n, a, p[r], lu, r, x, x);
    ApplyAssociative(n, Lower(s, m), Upper(s, m), x, r);
  }

  /** The two triangular solutions together solve the original system. */
  lemma FactorsSolve(s: Scheme, n: nat, m: Matrix, p: seq<int>, a: Matrix, y: Vector, x: Vector, b: Vector)
    requires Factors(s, n, m, p, a) && Permutation(p)
    requires forall i | 0 <= i < n :: Apply(n, Lower(s, m), y)(i) == b(p[i])
    requires forall i | 0 <= i < n :: Apply(n, Upper(s, m), x)(i) == y(i)
    ensures Solves(n, a, x, b)
  {
    forall i | 0 <= i < n
      ensures Apply(n, a, x)(i) == b(i)
    {
      assert i in p;
      var r :| 0 <= r < n && p[r] == i;
      FactoredRow(s, n, m, p, a, x, r);
      ApplyCongruence(n, Lower(s, m), r, Lower(s, m), r, Apply(n, Upper(s, m), x), y);
    }
  }

  /** A matrix that has factors with non-zero pivots is not singular. */
  lemma FactoredIsRegular(s: Scheme, n: nat, m: Matrix, p: seq<int>, a: Matrix)
    requires Factors(s, n, m, p, a) && Permutation(p)
    ensures !Singular(n, a)
  {
    if v :| NullVector(n, a, v) {
      var x := VectorOf(v);
      var y := Apply(n, Upper(s, m), x);
      forall r | 0 <= r < n
        ensures Apply(n, Lower(s, m), y)(r) == 0.0
      {
        FactoredRow(s, n, m, p, a, x, r);
      }
      LowerIsInjective(s, m, n, y, n);
      UpperIsInjective(s, m, n, x, 0);
      assert forall i | 0 <= i < n :: v[i] == x(i) == 0.0;
    }
  }

  // --------------------------------------------------------- failing columns

  /** Back substitution on the leading c rows and columns of an upper factor. */
  lemma {:induction false} BackSubstitution(s: Scheme, m: Matrix, c: nat, i: nat, u: Vector) returns (w: Vector)
    requires i <= c && (forall k | 0 <= k < c :: m(k, k) != 0.0)
    ensures forall k | i <= k < c :: Apply(c, Upper(s, m), w)(k) == u(k)
    decreases c - i
  {
    if i == c {
      w := k => 0.0;
    } else {
      var z := BackSubstitution(s, m, c, i + 1, u);
      var t := u(i) - Sum(c, Times(Row(Above(m), i), z));
      w := k => if k != i then z(k) else if s == Crout then t else t / m(i, i);
      LastUnknown(s, m, c, i, t, z, w);
      hide Above, Apply;
      forall k | i < k < c
        ensures Apply(c, Upper(s, m), w)(k) == u(k)
      {
        RowUnchanged(s, m, c, i, k, z, w);
      }
    }
  }

  lemma LastUnknown(s: Scheme, m: Matrix, c: nat, i: nat, t: real, z: Vector, w: Vector)
    requires i < c && m(i, i) != 0.0 && (forall k | k != i :: w(k) == z(k))
    requires w(i) == if s == Crout then t else t / m(i, i)
    ensures Apply(c, Upper(s, m), w)(i) == Sum(c, Times(Row(Above(m), i), z)) + t
  {
    UpperRow(s, m, c, i, w);
    SumCongruence(c, Times(Row(Above(m), i), w), Times(Row(Above(m), i), z));
    hide Above, Apply, Sum, Times;
    QuotientTimes(t, m(i, i));
  }

  lemma RowUnchanged(s: Scheme, m: Matrix, c: nat, i: nat, k: nat, z: Vector, w: Vector)
    requires i < k < c && forall j | j != i :: w(j) == z(j)
    ensures Apply(c, Upper(s, m), w)(k) == Apply(c, Upper(s, m), z)(k)
  {
    SumCongruence(c, Times(Row(Upper(s, m), k), w), Times(Row(Upper(s, m), k), z));
  }

  /** When column c of a is a combination of the columns of the lower factor
      built so far, a is singular. */
  lemma DependentColumn(s: Scheme, n: nat, m: Matrix, p: seq<int>, a: Matrix, c: nat)
    requires c < n && |p| == n && Permutation(p)
    requires forall k | 0 <= k < c :: m(k, k) != 0.0
    requires forall r, j | 0 <= r < n && 0 <= j < c :: Entry(s, m, r, j) == a(p[r], j)
    requires forall r | 0 <= r < n :: a(p[r], c) == Sum(c, Times(Row(Lower(s, m), r), Column(m, c)))
    ensures Singular(n, a)
  {
    var u := Column(m, c);
    var w := BackSubstitution(s, m, c, 0, u);
    var v := seq(n, k => if k < c then w(k) else if k == c then -1.0 else 0.0);
    forall i | 0 <= i < n
      ensures Apply(n, a, VectorOf(v))(i) == 0.0
    {
      assert i in p;
      var r :| 0 <= r < n && p[r] == i;
      DependentRow(s, n, m, p, a, c, w, VectorOf(v), r);
    }
    assert v[c] != 0.0;
    assert NullVector(n, a, v);
  }

  lemma DependentRow(s: Scheme, n: nat, m: Matrix, p: seq<int>, a: Matrix, c: nat, w: Vector, v: Vector, r: nat)
    requires c < n && |p| == n && r < n
    requires forall j | 0 <= j < c :: Entry(s, m, r, j) == a(p[r], j)
    requires a(p[r], c) == Sum(c, Times(Row(Lower(s, m), r), Column(m, c)))
    requires forall k | 0 <= k < c :: Apply(c, Upper(s, m), w)(k) == m(k, c) && v(k) == w(k)
    requires v(c) == -1.0 && forall k | c < k < n :: v(k) == 0.0
    ensures Apply(n, a, v)(p[r]) == 0.0
  {
    TruncatedRow(n, a, p[r], v, c);
    LeadingCombination(s, m, p, a, c, w, v, r);
  }

  lemma TruncatedRow(n: nat, a: Matrix, i: int, v: Vector, c: nat)
    requires c < n && v(c) == -1.0 && forall k | c < k < n :: v(k) == 0.0
    ensures Apply(n, a, v)(i) == Apply(c, a, v)(i) - a(i, c)
  {
    forall k | c < k < n
      ensures Times(Row(a, i), v)(k) == 0.0
    {
      TimesZero(Row(a, i), v, k);
    }
    SumTruncate(c + 1, n, Times(Row(a, i), v));
    TimesLast(c, Row(a, i), v);
  }

  lemma LeadingCombination(s: Scheme, m: Matrix, p: seq<int>, a: Matrix, c: nat, w: Vector, v: Vector, r: nat)
    requires r < |p|
    requires forall j | 0 <= j < c :: Entry(s, m, r, j) == a(p[r], j)
    requires forall k | 0 <= k < c :: Apply(c, Upper(s, m), w)(k) == m(k, c) && v(k) == w(k)
    ensures Apply(c, a, v)(p[r]) == Apply(c, Lower(s, m), Column(m, c))(r)
  {
    var lu := Multiply(c, Lower(s, m), Upper(s, m));
    forall j | 0 <= j < c
      ensures a(p[r], j) == lu(r, j)
    {
      LeadingProduct(s, m, c, r, j);
    }
    ApplyCongruence(c, a, p[r], lu, r, v, w);
    ApplyAssociative(c, Lower(s, m), Upper(s, m), w, r);
    ApplyCongruence(c, Lower(s, m), r, Lower(s, m), r, Apply(c, Upper(s, m), w), Column(m, c));
  }

  /** Only the first c rows of the upper factor reach the first c columns. */
  lemma LeadingProduct(s: Scheme, m: Matrix, c: nat, r: nat, j: nat)
    requires j < c
    ensures Entry(s, m, r, j) == Multiply(c, Lower(s, m), Upper(s, m))(r, j)
  {
    var n := if r < c then c else r + 1;
    EntryIsProduct(s, m, n, r, j);
    SumTruncate(c, n, Times(Row(Lower(s, m), r), Column(Upper(s, m), j)));
  }
}
