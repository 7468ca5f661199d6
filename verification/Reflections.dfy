/** Householder reflections w - t (u.w) u, and sums in another order. */
module Reflections {
  import opened LinearAlgebra
  import opened LinearSystems
  import opened RowOperations

  ghost function Dot(n: nat, u: Vector, w: Vector): real {
    Sum(n, Times(u, w))
  }

  ghost function Reflect(n: nat, u: Vector, t: real, w: Vector): Vector {
    i => w(i) - t * Dot(n, u, w) * u(i)
  }

  lemma DotCongruence(n: nat, u: Vector, v: Vector, w: Vector, z: Vector)
    requires Same(n, u, v) && Same(n, w, z)
    ensures Dot(n, u, w) == Dot(n, v, z)
  {
    SumCongruence(n, Times(u, w), Times(v, z));
  }

  lemma DotCommutes(n: nat, u: Vector, w: Vector)
    ensures Dot(n, u, w) == Dot(n, w, u)
  {
    SumCongruence(n, Times(u, w), Times(w, u));
  }

  lemma ReflectCongruence(n: nat, u: Vector, v: Vector, t: real, w: Vector, z: Vector)
    requires Same(n, u, v) && Same(n, w, z)
    ensures Same(n, Reflect(n, u, t, w), Reflect(n, v, t, z))
  {
    DotCongruence(n, u, v, w, z);
  }

  lemma DotTerm(n: nat, z: Vector, u: Vector, t: real, w: Vector, i: int, k: real)
    requires k == t * Dot(n, u, w)
    ensures Times(z, Reflect(n, u, t, w))(i) == Combine(1.0, Times(z, w), -k, Times(z, u))(i)
  {
    Spread(z(i), w(i), k, u(i));
  }

  /** A scalar product with a reflected vector. */
  lemma DotReflected(n: nat, z: Vector, u: Vector, t: real, w: Vector)
    ensures Dot(n, z, Reflect(n, u, t, w)) == Dot(n, z, w) - t * Dot(n, u, w) * Dot(n, z, u)
  {
    var k := t * Dot(n, u, w);
    var f, g := Times(z, w), Times(z, u);
    forall i | 0 <= i < n
      ensures Times(z, Reflect(n, u, t, w))(i) == Combine(1.0, f, -k, g)(i)
    {
      DotTerm(n, z, u, t, w, i, k);
    }
    hide Combine, Times, Reflect, Sum;
    assert Dot(n, z, Reflect(n, u, t, w)) == Sum(n, Times(z, Reflect(n, u, t, w)));
    SumCongruence(n, Times(z, Reflect(n, u, t, w)), Combine(1.0, f, -k, g));
    SumLinear(n, 1.0, f, -k, g);
  }

  lemma Spread(z: real, w: real, k: real, u: real)
    ensures z * (w - k * u) == 1.0 * (z * w) + -k * (z * u)
  {
  }

  /** What makes a reflection: the factor is 2/(u.u), or nothing is reflected. */
  ghost predicate Mirror(n: nat, u: Vector, t: real) {
    t == 0.0 || t * Dot(n, u, u) == 2.0
  }

  /** Reflecting twice changes nothing. */
  lemma ReflectTwice(n: nat, u: Vector, t: real, w: Vector)
    requires Mirror(n, u, t)
    ensures Same(n, Reflect(n, u, t, Reflect(n, u, t, w)), w)
  {
    DotReflected(n, u, u, t, w);
    var d, e := Dot(n, u, w), Dot(n, u, u);
    TwiceIsNone(t, d, e);
    forall i | 0 <= i < n
      ensures Reflect(n, u, t, Reflect(n, u, t, w))(i) == w(i)
    {
      BackAgain(t, d, d - t * d * e, u(i), w(i));
    }
  }

  lemma TwiceIsNone(t: real, d: real, e: real)
    requires t == 0.0 || t * e == 2.0
    ensures t * (d - t * d * e) == -(t * d)
  {
    assert t * (t * d * e) == t * d * (t * e);
  }

  lemma BackAgain(t: real, d: real, d': real, u: real, w: real)
    requires t * d' == -(t * d)
    ensures (w - t * d * u) - t * d' * u == w
  {
  }

  /** Reflections keep scalar products. */
  lemma ReflectionIsIsometry(n: nat, u: Vector, t: real, w: Vector, z: Vector)
    requires Mirror(n, u, t)
    ensures Dot(n, Reflect(n, u, t, w), Reflect(n, u, t, z)) == Dot(n, w, z)
  {
    var h, g := Reflect(n, u, t, w), Reflect(n, u, t, z);
    DotReflected(n, h, u, t, z);
    DotCommutes(n, h, z);
    DotReflected(n, z, u, t, w);
    DotCommutes(n, h, u);
    DotReflected(n, u, u, t, w);
    DotCommutes(n, z, w);
    DotCommutes(n, z, u);
    var a, b, e := Dot(n, u, w), Dot(n, u, z), Dot(n, u, u);
    TwiceIsNone(t, a, e);
    Isometry(t, a, b, a - t * a * e);
  }

  lemma Isometry(t: real, a: real, b: real, c: real)
    requires t * c == -(t * a)
    ensures t * a * b + t * b * c == 0.0
  {
    assert t * b * c == b * (t * c);
  }

  lemma ReflectInjective(n: nat, u: Vector, t: real, w: Vector, z: Vector)
    requires Mirror(n, u, t) && Same(n, Reflect(n, u, t, w), Reflect(n, u, t, z))
    ensures Same(n, w, z)
  {
    ReflectTwice(n, u, t, w);
    ReflectTwice(n, u, t, z);
    ReflectCongruence(n, u, u, t, Reflect(n, u, t, w), Reflect(n, u, t, z));
  }

  /** A vector that is zero where u is not stays. */
  lemma ReflectDisjoint(n: nat, u: Vector, t: real, w: Vector)
    requires forall k | 0 <= k < n :: u(k) == 0.0 || w(k) == 0.0
    ensures Same(n, Reflect(n, u, t, w), w)
  {
    forall k | 0 <= k < n
      ensures Times(u, w)(k) == 0.0
    {
      TimesZero(u, w, k);
    }
    SumZero(n, Times(u, w));
    assert Dot(n, u, w) == 0.0;
  }

  // ------------------------------------------------- reflections of matrices

  /** Every column reflected. */
  ghost function ReflectColumns(n: nat, u: Vector, t: real, m: Matrix): Matrix {
    (i, j) => Reflect(n, u, t, Column(m, j))(i)
  }

  /** The summands u(k) m(k, j) y(j). */
  ghost function Weighted(u: Vector, m: Matrix, y: Vector): Matrix {
    (j, k) => u(k) * m(k, j) * y(j)
  }

  lemma WeightedRows(n: nat, u: Vector, m: Matrix, y: Vector, j: int, k: int)
    ensures Sum(n, Row(Weighted(u, m, y), j)) == Dot(n, u, Column(m, j)) * y(j)
    ensures Sum(n, Row(Transpose(Weighted(u, m, y)), k)) == u(k) * Apply(n, m, y)(k)
  {
    forall i | 0 <= i < n
      ensures Row(Weighted(u, m, y), j)(i) == y(j) * Times(u, Column(m, j))(i)
    {
    }
    SumScale(n, y(j), Times(u, Column(m, j)), Row(Weighted(u, m, y), j));
    forall i | 0 <= i < n
      ensures Row(Transpose(Weighted(u, m, y)), k)(i) == u(k) * Times(Row(m, k), y)(i)
    {
      assert Row(Transpose(Weighted(u, m, y)), k)(i) == u(k) * m(k, i) * y(i);
    }
    SumScale(n, u(k), Times(Row(m, k), y), Row(Transpose(Weighted(u, m, y)), k));
  }

  /** The scalar products of u with the columns, weighted by y. */
  ghost function Projections(n: nat, u: Vector, m: Matrix, y: Vector): Vector {
    j => Dot(n, u, Column(m, j)) * y(j)
  }

  lemma ProjectionsSum(n: nat, u: Vector, m: Matrix, y: Vector)
    ensures Sum(n, Projections(n, u, m, y)) == Dot(n, u, Apply(n, m, y))
  {
    var f := Weighted(u, m, y);
    SumSwap(n, n, f);
    forall j | 0 <= j < n
      ensures RowSums(n, f)(j) == Projections(n, u, m, y)(j)
      ensures RowSums(n, Transpose(f))(j) == Times(u, Apply(n, m, y))(j)
    {
      WeightedRows(n, u, m, y, j, j);
    }
    SumCongruence(n, RowSums(n, f), Projections(n, u, m, y));
    SumCongruence(n, RowSums(n, Transpose(f)), Times(u, Apply(n, m, y)));
  }

  lemma ReflectTerm(n: nat, u: Vector, t: real, m: Matrix, y: Vector, i: int, j: int, k: real)
    requires k == t * u(i)
    ensures Times(Row(ReflectColumns(n, u, t, m), i), y)(j)
         == Combine(1.0, Times(Row(m, i), y), -k, Projections(n, u, m, y))(j)
  {
    var w := Column(m, j);
    Weigh(w(i), t, Dot(n, u, w), u(i), y(j), k);
    assert Row(ReflectColumns(n, u, t, m), i)(j) == Reflect(n, u, t, w)(i);
  }

  /** Reflecting the columns of a matrix reflects what it makes of a vector. */
  lemma ReflectApply(n: nat, u: Vector, t: real, m: Matrix, y: Vector, i: int)
    ensures Apply(n, ReflectColumns(n, u, t, m), y)(i) == Reflect(n, u, t, Apply(n, m, y))(i)
  {
    var f, g := Times(Row(m, i), y), Projections(n, u, m, y);
    var k := t * u(i);
    forall j | 0 <= j < n
      ensures Times(Row(ReflectColumns(n, u, t, m), i), y)(j) == Combine(1.0, f, -k, g)(j)
    {
      ReflectTerm(n, u, t, m, y, i, j, k);
    }
    SumCongruence(n, Times(Row(ReflectColumns(n, u, t, m), i), y), Combine(1.0, f, -k, g));
    SumLinear(n, 1.0, f, -k, g);
    ProjectionsSum(n, u, m, y);
    Regroup(t, u(i), Dot(n, u, Apply(n, m, y)));
  }

  lemma Weigh(x: real, t: real, d: real, u: real, y: real, k: real)
    requires k == t * u
    ensures (x - t * d * u) * y == 1.0 * (x * y) + -k * (d * y)
  {
    assert (t * d * u) * y == (t * u) * (d * y);
  }

  lemma Regroup(t: real, u: real, d: real)
    ensures (t * u) * d == t * d * u
  {
  }

  // --------------------------------------------------- sums in another order

  lemma {:induction false} SumUpdated(n: nat, f: Vector, g: Vector, i: nat)
    requires i < n && forall k | 0 <= k < n && k != i :: g(k) == f(k)
    ensures Sum(n, g) == Sum(n, f) - f(i) + g(i)
  {
    if i == n - 1 { SumCongruence(n - 1, f, g); } else { SumUpdated(n - 1, f, g, i); }
  }

  /** f in the order p. */
  ghost function Ordered(f: Vector, p: seq<int>): Vector {
    k => if 0 <= k < |p| then f(p[k]) else 0.0
  }

  lemma SumSwapped(n: nat, f: Vector, p: seq<int>, i: nat, j: nat)
    requires |p| == n && i < n && j < n
    ensures Sum(n, Ordered(f, Swapped(p, i, j))) == Sum(n, Ordered(f, p))
  {
    var g, h := Ordered(f, p), Ordered(f, Swapped(p, i, j));
    var e: Vector := k => if k == i then h(i) else g(k);
    SumUpdated(n, g, e, i);
    SumUpdated(n, e, h, j);
  }

  /** The order of the summands does not matter. */
  lemma {:induction false} SumOrdered(n: nat, f: Vector, p: seq<int>)
    requires |p| == n && Permutation(p)
    ensures Sum(n, Ordered(f, p)) == Sum(n, f)
  {
    if n > 0 {
      assert n - 1 in p;
      var q :| 0 <= q < n && p[q] == n - 1;
      var s := Swapped(p, q, n - 1);
      SwapKeepsPermutation(p, q, n - 1);
      SumSwapped(n, f, p, q, n - 1);
      FrontIsPermutation(s);
      SumOrdered(n - 1, f, s[..n - 1]);
      SumCongruence(n - 1, Ordered(f, s), Ordered(f, s[..n - 1]));
    }
  }

  lemma FrontIsPermutation(s: seq<int>)
    requires s != [] && Permutation(s) && s[|s| - 1] == |s| - 1
    ensures Permutation(s[..|s| - 1])
  {
    var n := |s| - 1;
    forall i | 0 <= i < n
      ensures 0 <= s[..n][i] < n && i in s[..n]
    {
      assert s[i] != s[n];
      assert i in s;
      var k :| 0 <= k < |s| && s[k] == i;
      assert s[..n][k] == i;
    }
  }
}
