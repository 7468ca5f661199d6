/** Complex numbers as pairs of reals, and finite sums of them. */
module Complex {
  import opened Arithmetic

  datatype Complex = Complex(re: real, im: real)

  const Zero := Complex(0.0, 0.0)
  const One := Complex(1.0, 0.0)

  function Add(a: Complex, b: Complex): Complex { Complex(a.re + b.re, a.im + b.im) }

  function Sub(a: Complex, b: Complex): Complex { Complex(a.re - b.re, a.im - b.im) }

  function Mul(a: Complex, b: Complex): Complex {
    Complex(a.re * b.re - a.im * b.im, a.re * b.im + a.im * b.re)
  }

  function Neg(a: Complex): Complex { Complex(-a.re, -a.im) }

  function Conj(a: Complex): Complex { Complex(a.re, -a.im) }

  lemma MulCommutes(a: Complex, b: Complex)
    ensures Mul(a, b) == Mul(b, a)
  {
  }

  lemma ProductsAgree(a: real, b: real, c: real, d: real, e: real, f: real)
    ensures (a * c - b * d) * e - (a * d + b * c) * f == a * (c * e - d * f) - b * (c * f + d * e)
  {
  }

  lemma MulAssociates(a: Complex, b: Complex, c: Complex)
    ensures Mul(Mul(a, b), c) == Mul(a, Mul(b, c))
  {
    ProductsAgree(a.re, a.im, b.re, b.im, c.re, c.im);
    ProductsAgree(a.re, a.im, b.re, b.im, c.im, -c.re);
  }

  lemma MulAdds(a: Complex, b: Complex, c: Complex)
    ensures Mul(a, Add(b, c)) == Add(Mul(a, b), Mul(a, c))
  {
  }

  lemma ConjMul(a: Complex, b: Complex)
    ensures Conj(Mul(a, b)) == Mul(Conj(a), Conj(b))
  {
  }

  lemma ProductParts(a: Complex, b: Complex)
    requires Mul(a, b) == Zero
    ensures a.re * b.re - a.im * b.im == 0.0 && a.re * b.im + a.im * b.re == 0.0
  {
    assert Mul(a, b).re == 0.0 && Mul(a, b).im == 0.0;
  }

  lemma Norm(x: real, y: real) returns (n: real)
    ensures n == x * x + y * y
    ensures x != 0.0 || y != 0.0 ==> n > 0.0
  {
    var p := Square(x);
    var q := Square(y);
    n := p + q;
  }

  lemma NormVanishes(p: real, q: real, x: real, y: real, n: real)
    requires p * x - q * y == 0.0 && p * y + q * x == 0.0 && n == x * x + y * y
    ensures p * n == 0.0 && q * n == 0.0
  {
    var u, v := p * x - q * y, p * y + q * x;
    assert u * x == p * x * x - q * y * x && v * y == p * y * y + q * x * y;
    assert v * x == p * y * x + q * x * x && u * y == p * x * y - q * y * y;
  }

  /** There are no zero divisors. */
  lemma MulZero(a: Complex, b: Complex)
    requires Mul(a, b) == Zero
    ensures a == Zero || b == Zero
  {
    if b != Zero {
      ProductParts(a, b);
      hide Mul;
      var n := Norm(b.re, b.im);
      assert b.re != 0.0 || b.im != 0.0;
      NormVanishes(a.re, a.im, b.re, b.im, n);
      SameFactor(a.re, 0.0, n);
      SameFactor(a.im, 0.0, n);
    }
  }

  // ---------------------------------------------------------------- sums

  type CVector = int -> Complex

  ghost function Sum(n: nat, f: CVector): Complex {
    if n == 0 then Zero else Add(Sum(n - 1, f), f(n - 1))
  }

  lemma {:induction false} SumCongruence(n: nat, f: CVector, g: CVector)
    requires forall k | 0 <= k < n :: f(k) == g(k)
    ensures Sum(n, f) == Sum(n, g)
  {
    if n > 0 { SumCongruence(n - 1, f, g); }
  }

  lemma {:induction false} SumSingle(n: nat, c: nat, f: CVector)
    requires c < n && forall k | 0 <= k < n && k != c :: f(k) == Zero
    ensures Sum(n, f) == f(c)
  {
    if c == n - 1 { SumZero(n - 1, f); } else { SumSingle(n - 1, c, f); }
  }

  lemma {:induction false} SumZero(n: nat, f: CVector)
    requires forall k | 0 <= k < n :: f(k) == Zero
    ensures Sum(n, f) == Zero
  {
    if n > 0 { SumZero(n - 1, f); }
  }

  lemma {:induction false} SumAdd(n: nat, f: CVector, g: CVector, h: CVector)
    requires forall k | 0 <= k < n :: h(k) == Add(f(k), g(k))
    ensures Sum(n, h) == Add(Sum(n, f), Sum(n, g))
  {
    if n > 0 { SumAdd(n - 1, f, g, h); }
  }

  lemma {:induction false} SumScale(n: nat, c: Complex, f: CVector, h: CVector)
    requires forall k | 0 <= k < n :: h(k) == Mul(c, f(k))
    ensures Sum(n, h) == Mul(c, Sum(n, f))
  {
    if n > 0 {
      SumScale(n - 1, c, f, h);
      MulAdds(c, Sum(n - 1, f), f(n - 1));
    }
  }

  lemma {:induction false} SumConj(n: nat, f: CVector, h: CVector)
    requires forall k | 0 <= k < n :: h(k) == Conj(f(k))
    ensures Sum(n, h) == Conj(Sum(n, f))
  {
    if n > 0 { SumConj(n - 1, f, h); }
  }

  lemma SumTwo(m: nat, f: CVector)
    ensures Sum(m + 2, f) == Add(Sum(m, f), Add(f(m), f(m + 1)))
  {
    assert Sum(m + 2, f) == Add(Sum(m + 1, f), f(m + 1));
  }

  lemma AddShuffle(a: Complex, b: Complex, c: Complex, d: Complex)
    ensures Add(Add(a, b), Add(c, d)) == Add(Add(a, c), Add(b, d))
  {
  }

  /** A sum split into its even and its odd terms. */
  lemma {:induction false} SumHalves(n: nat, f: CVector, even: CVector, odd: CVector)
    requires forall k | 0 <= k < n :: even(k) == f(2 * k) && odd(k) == f(2 * k + 1)
    ensures Sum(2 * n, f) == Add(Sum(n, even), Sum(n, odd))
  {
    if n > 0 {
      var m: nat := n - 1;
      SumHalves(m, f, even, odd);
      SumTwo(2 * m, f);
      AddShuffle(Sum(m, even), Sum(m, odd), even(m), odd(m));
    }
  }

  type CMatrix = (int, int) -> Complex

  ghost function Row(f: CMatrix, i: int): CVector { j => f(i, j) }

  ghost function RowSums(m: nat, f: CMatrix): CVector { i => Sum(m, Row(f, i)) }

  ghost function Transpose(f: CMatrix): CMatrix { (i, j) => f(j, i) }

  /** The order of a double sum does not matter. */
  lemma {:induction false} SumSwap(n: nat, m: nat, f: CMatrix)
    ensures Sum(n, RowSums(m, f)) == Sum(m, RowSums(n, Transpose(f)))
  {
    if n == 0 {
      SumZero(m, RowSums(0, Transpose(f)));
    } else {
      SumSwap(n - 1, m, f);
      SumAdd(m, RowSums(n - 1, Transpose(f)), Row(f, n - 1), RowSums(n, Transpose(f)));
    }
  }
}
