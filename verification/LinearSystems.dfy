/** What it means to solve a linear system, and when that is possible. */
module LinearSystems {
  import opened LinearAlgebra

  /** The vector a solver's array holds. */
  ghost function VectorOf(s: seq<real>): Vector {
    i => if 0 <= i < |s| then s[i] else 0.0
  }

  /** A x = b, row by row. */
  ghost predicate Solves(n: nat, a: Matrix, x: Vector, b: Vector) {
    forall i | 0 <= i < n :: Apply(n, a, x)(i) == b(i)
  }

  /** Some non-zero vector is mapped to zero. */
  ghost predicate Singular(n: nat, a: Matrix) {
    exists v: seq<real> :: NullVector(n, a, v)
  }

  ghost predicate NullVector(n: nat, a: Matrix, v: seq<real>) {
    |v| == n && (exists i | 0 <= i < n :: v[i] != 0.0) && Solves(n, a, VectorOf(v), i => 0.0)
  }

  /** A list of row numbers in which each of 0..n-1 occurs exactly once. */
  ghost predicate Permutation(p: seq<int>) {
    && (forall i | 0 <= i < |p| :: 0 <= p[i] < |p|)
    && (forall i, j | 0 <= i < j < |p| :: p[i] != p[j])
    && (forall i | 0 <= i < |p| :: i in p)
  }

  /** Where j stands in p. */
  ghost function Position(p: seq<int>, j: int): (k: int)
    requires Permutation(p) && 0 <= j < |p|
    ensures 0 <= k < |p| && p[k] == j
  {
    assert j in p;
    var k :| 0 <= k < |p| && p[k] == j;
    k
  }

  lemma OnePlace(p: seq<int>, j: int, k: int)
    requires Permutation(p) && 0 <= j < |p| && 0 <= k < |p| && p[j] == p[k]
    ensures j == k
  {
  }

  ghost function Swapped<T>(p: seq<T>, i: int, j: int): (q: seq<T>)
    requires 0 <= i < |p| && 0 <= j < |p|
  {
    p[i := p[j]][j := p[i]]
  }

  lemma SwapKeepsPermutation(p: seq<int>, i: int, j: int)
    requires Permutation(p) && 0 <= i < |p| && 0 <= j < |p|
    ensures Permutation(Swapped(p, i, j))
  {
    var q := Swapped(p, i, j);
    forall r | 0 <= r < |q|
      ensures r in q
    {
      assert r in p;
      var s :| 0 <= s < |p| && p[s] == r;
      assert q[if s == i then j else if s == j then i else s] == r;
    }
  }

  lemma ApplyCongruence(n: nat, a: Matrix, i: int, b: Matrix, k: int, x: Vector, y: Vector)
    requires forall j | 0 <= j < n :: a(i, j) == b(k, j) && x(j) == y(j)
    ensures Apply(n, a, x)(i) == Apply(n, b, y)(k)
  {
    SumCongruence(n, Times(Row(a, i), x), Times(Row(b, k), y));
  }

  lemma ApplyDifference(n: nat, a: Matrix, x: Vector, y: Vector, i: int)
    ensures Apply(n, a, Combine(1.0, x, -1.0, y))(i) == Apply(n, a, x)(i) - Apply(n, a, y)(i)
  {
    var f, g := Times(Row(a, i), x), Times(Row(a, i), y);
    SumLinear(n, 1.0, f, -1.0, g);
    SumCongruence(n, Combine(1.0, f, -1.0, g), Times(Row(a, i), Combine(1.0, x, -1.0, y)));
  }

  /** A system whose matrix is not singular has at most one solution. */
  lemma SolutionIsUnique(n: nat, a: Matrix, x: Vector, y: Vector, b: Vector)
    requires !Singular(n, a) && Solves(n, a, x, b) && Solves(n, a, y, b)
    ensures forall i | 0 <= i < n :: x(i) == y(i)
  {
    var d := Combine(1.0, x, -1.0, y);
    var v := seq(n, i => d(i));
    forall i | 0 <= i < n
      ensures Apply(n, a, VectorOf(v))(i) == 0.0
    {
      ApplyCongruence(n, a, i, a, i, VectorOf(v), d);
      ApplyDifference(n, a, x, y, i);
    }
    if i :| 0 <= i < n && x(i) != y(i) {
      assert v[i] != 0.0;
      assert NullVector(n, a, v);
    }
  }

  // ------------------------------------------------------ agreeing matrices

  ghost predicate Agree(n: nat, m: Matrix, w: Matrix) {
    forall i, j | 0 <= i < n && 0 <= j < n :: m(i, j) == w(i, j)
  }

  lemma SolvesOfAgreeing(n: nat, a: Matrix, e: Matrix, x: Vector, b: Vector)
    requires Agree(n, a, e) && Solves(n, a, x, b)
    ensures Solves(n, e, x, b)
  {
    forall i | 0 <= i < n
      ensures Apply(n, e, x)(i) == b(i)
    {
      ApplyCongruence(n, a, i, e, i, x, x);
    }
  }

  lemma SingularOfAgreeing(n: nat, a: Matrix, e: Matrix)
    requires Agree(n, a, e)
    ensures Singular(n, a) <==> Singular(n, e)
  {
    if v :| NullVector(n, a, v) {
      SolvesOfAgreeing(n, a, e, VectorOf(v), i => 0.0);
      assert NullVector(n, e, v);
    }
    if v :| NullVector(n, e, v) {
      SolvesOfAgreeing(n, e, a, VectorOf(v), i => 0.0);
      assert NullVector(n, a, v);
    }
  }

  // --------------------------------------------------------------- inverses

  ghost function Unit(c: int): Vector {
    i => if i == c then 1.0 else 0.0
  }

  /** a h is the identity matrix. */
  ghost predicate Inverse(n: nat, a: Matrix, h: Matrix) {
    forall i, j | 0 <= i < n && 0 <= j < n :: Multiply(n, a, h)(i, j) == Unit(j)(i)
  }

  lemma InverseFromColumns(n: nat, a: Matrix, h: Matrix)
    requires forall c | 0 <= c < n :: Solves(n, a, Column(h, c), Unit(c))
    ensures Inverse(n, a, h)
  {
    forall i, j | 0 <= i < n && 0 <= j < n
      ensures Multiply(n, a, h)(i, j) == Unit(j)(i)
    {
      assert Apply(n, a, Column(h, j))(i) == Unit(j)(i);
    }
  }

  lemma ApplyUnit(n: nat, a: Matrix, c: nat, i: int)
    requires c < n
    ensures Apply(n, a, Unit(c))(i) == a(i, c)
  {
    SumSingle(n, c, Times(Row(a, i), Unit(c)));
  }

  /** A right inverse of a matrix that is not singular is also a left inverse. */
  lemma RightInverseIsLeft(n: nat, a: Matrix, h: Matrix)
    requires !Singular(n, a) && Inverse(n, a, h)
    ensures Inverse(n, h, a)
  {
    forall i, j | 0 <= i < n && 0 <= j < n
      ensures Multiply(n, h, a)(i, j) == Unit(j)(i)
    {
      LeftColumn(n, a, h, j);
      assert Column(Multiply(n, h, a), j)(i) == Unit(j)(i);
    }
  }

  lemma LeftColumn(n: nat, a: Matrix, h: Matrix, j: nat)
    requires !Singular(n, a) && Inverse(n, a, h) && j < n
    ensures forall i | 0 <= i < n :: Column(Multiply(n, h, a), j)(i) == Unit(j)(i)
  {
    var u, v := Column(a, j), Column(Multiply(n, h, a), j);
    forall i | 0 <= i < n
      ensures Apply(n, a, v)(i) == u(i) && Apply(n, a, Unit(j))(i) == u(i)
    {
      ApplyCongruence(n, a, i, a, i, v, Apply(n, h, u));
      ApplyAssociative(n, a, h, u, i);
      IdentityRow(n, Multiply(n, a, h), u, i);
      ApplyUnit(n, a, j, i);
    }
    SolutionIsUnique(n, a, v, Unit(j), u);
  }

  lemma IdentityRow(n: nat, e: Matrix, u: Vector, i: nat)
    requires i < n && forall j | 0 <= j < n :: e(i, j) == Unit(j)(i)
    ensures Apply(n, e, u)(i) == u(i)
  {
    forall j | 0 <= j < n && j != i
      ensures Times(Row(e, i), u)(j) == 0.0
    {
      assert e(i, j) == 0.0;
      TimesZero(Row(e, i), u, j);
    }
    SumSingle(n, i, Times(Row(e, i), u));
  }
}
