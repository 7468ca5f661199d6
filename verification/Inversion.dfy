/** The inverse transform undoes the transform, for every length. */
module Inversion {
  import opened Complex
  import opened Roots
  import opened Dft

  ghost function Powers(t: Trig, isign: int, n: nat, q: int): CVector
    requires n > 0
  {
    j => Root(t, isign, n, j * q)
  }

  ghost function Spectrum(t: Trig, isign: int, n: nat, x: CVector): CVector
    requires n > 0
  {
    k => Transform(t, isign, n, x, k)
  }

  function OfNat(n: nat): Complex { Complex(n as real, 0.0) }

  // ---------------------------------------------------------- orthogonality

  lemma {:induction false} SumOnes(n: nat, f: CVector)
    requires forall j | 0 <= j < n :: f(j) == One
    ensures Sum(n, f) == OfNat(n)
  {
    if n > 0 { SumOnes(n - 1, f); }
  }

  lemma {:induction false} SumShift(n: nat, f: CVector, g: CVector)
    requires forall j | 0 <= j < n :: g(j) == f(j + 1)
    ensures Add(Sum(n, g), f(0)) == Add(Sum(n, f), f(n))
  {
    if n > 0 { SumShift(n - 1, f, g); }
  }

  /** Other than at multiples of a full turn, a root is not one. */
  lemma RootNotOne(t: Trig, isign: int, n: nat, q: int)
    requires Lawful(t) && (isign == 1 || isign == -1) && 0 < q < n
    ensures Root(t, isign, n, q) != One
  {
    var a := Angle(t, 1, n, q);
    AngleInside(t, n, q);
    assert Parity(t, -a);
    if isign == -1 { RootConj(t, 1, n, q); }
  }

  lemma AngleInside(t: Trig, n: nat, q: int)
    requires t.pi > 0.0 && 0 < q < n
    ensures 0.0 < -Angle(t, 1, n, q) < 2.0 * t.pi
  {
    var c := 2.0 * t.pi;
    SmallAngle(c, q as real, n as real);
    NegatedFraction(c, q as real, n as real);
    assert Turn(t, 1) == -c;
  }

  lemma SmallAngle(c: real, q: real, n: real)
    requires c > 0.0 && 0.0 < q < n
    ensures 0.0 < c * q / n < c
  {
    assert c * q < c * n;
  }

  /** The powers of a root other than one sum to zero. */
  lemma PowersVanish(t: Trig, isign: int, n: nat, q: int)
    requires Lawful(t) && (isign == 1 || isign == -1) && n > 0 && Root(t, isign, n, q) != One
    ensures Sum(n, Powers(t, isign, n, q)) == Zero
  {
    var f, w := Powers(t, isign, n, q), Root(t, isign, n, q);
    var g: CVector := j => Mul(w, f(j));
    forall j | 0 <= j < n
      ensures g(j) == f(j + 1)
    {
      assert (j + 1) * q == q + j * q;
      RootSum(t, isign, n, q, j * q);
    }
    SumShift(n, f, g);
    PowersReturn(t, isign, n, q);
    SumScale(n, w, f, g);
    FixedPoint(w, Sum(n, f));
  }

  lemma PowersReturn(t: Trig, isign: int, n: nat, q: int)
    requires Lawful(t) && (isign == 1 || isign == -1) && n > 0
    ensures Powers(t, isign, n, q)(0) == One == Powers(t, isign, n, q)(n)
  {
    assert 0 * q == 0;
    RootZero(t, isign, n);
    if q >= 0 {
      RootMultiple(t, isign, n, q);
      assert q * n == n * q;
    } else {
      RootMultiple(t, isign, n, -q);
      RootConj(t, isign, n, -q * n);
      assert -(-q * n) == n * q;
    }
  }

  lemma FixedPoint(w: Complex, s: Complex)
    requires w != One && Mul(w, s) == s
    ensures s == Zero
  {
    MulZero(Sub(w, One), s);
  }

  /** The product of the k-th power of a root and the m-th of its inverse, summed
      over all roots. */
  lemma Orthogonal(t: Trig, isign: int, n: nat, k: int, m: int)
    requires Lawful(t) && (isign == 1 || isign == -1) && 0 <= k < n && 0 <= m < n
    ensures Sum(n, Powers(t, isign, n, k - m)) == if k == m then OfNat(n) else Zero
  {
    if k == m {
      PowersOfOne(t, isign, n);
    } else {
      DifferenceNotOne(t, isign, n, k, m);
      PowersVanish(t, isign, n, k - m);
    }
  }

  lemma PowersOfOne(t: Trig, isign: int, n: nat)
    requires Lawful(t) && n > 0
    ensures Sum(n, Powers(t, isign, n, 0)) == OfNat(n)
  {
    RootZero(t, isign, n);
    forall j | 0 <= j < n
      ensures Powers(t, isign, n, 0)(j) == One
    {
      assert j * 0 == 0;
    }
    SumOnes(n, Powers(t, isign, n, 0));
  }

  lemma DifferenceNotOne(t: Trig, isign: int, n: nat, k: int, m: int)
    requires Lawful(t) && (isign == 1 || isign == -1) && 0 <= k < n && 0 <= m < n && k != m
    ensures Root(t, isign, n, k - m) != One
  {
    if k > m {
      RootNotOne(t, isign, n, k - m);
    } else {
      RootNotOne(t, isign, n, m - k);
      RootConj(t, isign, n, m - k);
    }
  }

  // -------------------------------------------------------------- inversion

  /** The summands x(j) w^(jk) v^(km) of the double transform. */
  ghost function Double(t: Trig, isign: int, n: nat, x: CVector, m: int): CMatrix
    requires n > 0
  {
    (k, j) => Mul(Mul(x(j), Root(t, isign, n, j * k)), Root(t, -isign, n, k * m))
  }

  lemma DoubleByFrequency(t: Trig, isign: int, n: nat, x: CVector, m: int, k: int)
    requires n > 0
    ensures Sum(n, Row(Double(t, isign, n, x, m), k)) == Term(t, -isign, n, Spectrum(t, isign, n, x), m)(k)
  {
    var w := Root(t, -isign, n, k * m);
    var f := Term(t, isign, n, x, k);
    forall j | 0 <= j < n
      ensures Row(Double(t, isign, n, x, m), k)(j) == Mul(w, f(j))
    {
      MulCommutes(f(j), w);
    }
    SumScale(n, w, f, Row(Double(t, isign, n, x, m), k));
    MulCommutes(w, Sum(n, f));
  }

  lemma DoubleByTime(t: Trig, isign: int, n: nat, x: CVector, m: int, j: int)
    requires Lawful(t) && (isign == 1 || isign == -1) && 0 <= j < n && 0 <= m < n
    ensures Sum(n, Row(Transpose(Double(t, isign, n, x, m)), j)) == if j == m then Mul(x(m), OfNat(n)) else Zero
  {
    var f, g := Row(Transpose(Double(t, isign, n, x, m)), j), Powers(t, isign, n, j - m);
    forall k | 0 <= k < n
      ensures f(k) == Mul(x(j), g(k))
    {
      DoubleTerm(t, isign, n, x, m, j, k);
    }
    SumScale(n, x(j), g, f);
    Orthogonal(t, isign, n, j, m);
    assert Mul(x(j), Zero) == Zero;
  }

  lemma DoubleTerm(t: Trig, isign: int, n: nat, x: CVector, m: int, j: int, k: int)
    requires Lawful(t) && n > 0
    ensures Double(t, isign, n, x, m)(k, j) == Mul(x(j), Powers(t, isign, n, j - m)(k))
  {
    RootConj(t, isign, n, k * m);
    RootSum(t, isign, n, j * k, -(k * m));
    assert j * k + -(k * m) == k * (j - m);
    MulAssociates(x(j), Root(t, isign, n, j * k), Root(t, -isign, n, k * m));
  }

  /** Transforming forth and back multiplies by the length. */
  lemma InverseTransform(t: Trig, isign: int, n: nat, x: CVector, m: int)
    requires Lawful(t) && (isign == 1 || isign == -1) && 0 <= m < n
    ensures Transform(t, -isign, n, Spectrum(t, isign, n, x), m) == Mul(x(m), OfNat(n))
  {
    var f := Double(t, isign, n, x, m);
    SumSwap(n, n, f);
    forall k | 0 <= k < n
      ensures Term(t, -isign, n, Spectrum(t, isign, n, x), m)(k) == RowSums(n, f)(k)
    {
      DoubleByFrequency(t, isign, n, x, m, k);
    }
    SumCongruence(n, Term(t, -isign, n, Spectrum(t, isign, n, x), m), RowSums(n, f));
    forall j | 0 <= j < n
      ensures RowSums(n, Transpose(f))(j) == if j == m then Mul(x(m), OfNat(n)) else Zero
    {
      DoubleByTime(t, isign, n, x, m, j);
    }
    SumSingle(n, m, RowSums(n, Transpose(f)));
  }
}
