/** Finite sums, matrices and vectors over exact reals.

    A matrix of the simulator is a heap object; its value is described by a
    `Matrix`, a total function of two indices whose entries outside the
    object's bounds are never looked at. */
module LinearAlgebra {

  type Vector = int -> real
  type Matrix = (int, int) -> real

  // ---------------------------------------------------------------- sums

  ghost function Sum(n: nat, f: Vector): real {
    if n == 0 then 0.0 else Sum(n - 1, f) + f(n - 1)
  }

  lemma {:induction false} SumCongruence(n: nat, f: Vector, g: Vector)
    requires forall k | 0 <= k < n :: f(k) == g(k)
    ensures Sum(n, f) == Sum(n, g)
  {
    if n > 0 { SumCongruence(n - 1, f, g); }
  }

  lemma {:induction false} SumZero(n: nat, f: Vector)
    requires forall k | 0 <= k < n :: f(k) == 0.0
    ensures Sum(n, f) == 0.0
  {
    if n > 0 { SumZero(n - 1, f); }
  }

  /** A sum whose terms vanish from `m` on stops at `m`. */
  lemma {:induction false} SumTruncate(m: nat, n: nat, f: Vector)
    requires m <= n
    requires forall k | m <= k < n :: f(k) == 0.0
    ensures Sum(n, f) == Sum(m, f)
    decreases n
  {
    if m < n { SumTruncate(m, n - 1, f); }
  }

  /** A sum with a single non-zero term. */
  lemma {:induction false} SumSingle(n: nat, c: nat, f: Vector)
    requires c < n
    requires forall k | 0 <= k < n && k != c :: f(k) == 0.0
    ensures Sum(n, f) == f(c)
  {
    if c == n - 1 { SumZero(n - 1, f); } else { SumSingle(n - 1, c, f); }
  }

  ghost function Combine(a: real, f: Vector, b: real, g: Vector): Vector {
    k => a * f(k) + b * g(k)
  }

  lemma {:induction false} SumLinear(n: nat, a: real, f: Vector, b: real, g: Vector)
    ensures Sum(n, Combine(a, f, b, g)) == a * Sum(n, f) + b * Sum(n, g)
  {
    if n > 0 { SumLinear(n - 1, a, f, b, g); }
  }

  lemma {:induction false} SumScale(n: nat, a: real, f: Vector, g: Vector)
    requires forall k | 0 <= k < n :: g(k) == a * f(k)
    ensures Sum(n, g) == a * Sum(n, f)
  {
    if n > 0 { SumScale(n - 1, a, f, g); }
  }

  ghost function Transpose(f: Matrix): Matrix {
    (i, j) => f(j, i)
  }

  ghost function Row(f: Matrix, i: int): Vector {
    j => f(i, j)
  }

  ghost function RowSums(m: nat, f: Matrix): Vector {
    i => Sum(m, Row(f, i))
  }

  /** The order of a double sum does not matter. */
  lemma {:induction false} SumSwap(n: nat, m: nat, f: Matrix)
    ensures Sum(n, RowSums(m, f)) == Sum(m, RowSums(n, Transpose(f)))
  {
    if n == 0 {
      SumZero(m, RowSums(0, Transpose(f)));
    } else {
      SumSwap(n - 1, m, f);
      var p, q := RowSums(n - 1, Transpose(f)), Row(f, n - 1);
      SumLinear(m, 1.0, p, 1.0, q);
      forall k | 0 <= k < m
        ensures Combine(1.0, p, 1.0, q)(k) == RowSums(n, Transpose(f))(k)
      {
        assert Row(Transpose(f), k)(n - 1) == f(n - 1, k);
      }
      SumCongruence(m, Combine(1.0, p, 1.0, q), RowSums(n, Transpose(f)));
      assert RowSums(m, f)(n - 1) == Sum(m, q);
    }
  }

  // ------------------------------------------------ products and solutions

  /** The summands of a scalar product. */
  ghost function Times(f: Vector, g: Vector): Vector {
    k => f(k) * g(k)
  }

  lemma TimesZero(f: Vector, g: Vector, k: int)
    requires f(k) == 0.0 || g(k) == 0.0
    ensures Times(f, g)(k) == 0.0
  {
  }

  /** The last summand of a scalar product. */
  lemma TimesLast(n: nat, f: Vector, g: Vector)
    ensures Sum(n + 1, Times(f, g)) == Sum(n, Times(f, g)) + f(n) * g(n)
  {
  }

  ghost function Column(a: Matrix, j: int): Vector {
    i => a(i, j)
  }

  ghost function Apply(n: nat, a: Matrix, x: Vector): Vector {
    i => Sum(n, Times(Row(a, i), x))
  }

  ghost function Multiply(n: nat, a: Matrix, b: Matrix): Matrix {
    (i, j) => Sum(n, Times(Row(a, i), Column(b, j)))
  }

  /** The summands a(i,k) b(k,j) x(j) of the double sum behind (A B) x, by j and k. */
  ghost function Triple(a: Matrix, b: Matrix, x: Vector, i: int): Matrix {
    (j, k) => a(i, k) * b(k, j) * x(j)
  }

  lemma TripleByRow(n: nat, a: Matrix, b: Matrix, x: Vector, i: int, j: int)
    ensures Sum(n, Row(Triple(a, b, x, i), j)) == x(j) * Sum(n, Times(Row(a, i), Column(b, j)))
  {
    SumScale(n, x(j), Times(Row(a, i), Column(b, j)), Row(Triple(a, b, x, i), j));
  }

  lemma TripleByColumn(n: nat, a: Matrix, b: Matrix, x: Vector, i: int, k: int)
    ensures Sum(n, Row(Transpose(Triple(a, b, x, i)), k)) == a(i, k) * Sum(n, Times(Row(b, k), x))
  {
    var t := Row(Transpose(Triple(a, b, x, i)), k);
    forall j | 0 <= j < n
      ensures t(j) == a(i, k) * Times(Row(b, k), x)(j)
    {
      assert t(j) == a(i, k) * b(k, j) * x(j);
    }
    SumScale(n, a(i, k), Times(Row(b, k), x), t);
  }

  lemma ApplyAssociative(n: nat, a: Matrix, b: Matrix, x: Vector, i: int)
    ensures Apply(n, Multiply(n, a, b), x)(i) == Apply(n, a, Apply(n, b, x))(i)
  {
    var f := Triple(a, b, x, i);
    SumSwap(n, n, f);
    forall j | 0 <= j < n
      ensures Times(Row(Multiply(n, a, b), i), x)(j) == RowSums(n, f)(j)
    {
      TripleByRow(n, a, b, x, i, j);
    }
    SumCongruence(n, Times(Row(Multiply(n, a, b), i), x), RowSums(n, f));
    forall k | 0 <= k < n
      ensures Times(Row(a, i), Apply(n, b, x))(k) == RowSums(n, Transpose(f))(k)
    {
      TripleByColumn(n, a, b, x, i, k);
    }
    SumCongruence(n, Times(Row(a, i), Apply(n, b, x)), RowSums(n, Transpose(f)));
  }
}
