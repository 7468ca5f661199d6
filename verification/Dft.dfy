/** The discrete Fourier transform as a sum, and how it splits in halves. */
module Dft {
  import opened Complex
  import opened Roots

  /** The summand x(j) w^(jk) of the transform, w an n-th root of unity. */
  ghost function Term(t: Trig, isign: int, n: nat, x: CVector, k: int): CVector
    requires n > 0
  {
    j => Mul(x(j), Root(t, isign, n, j * k))
  }

  /** Value k of the transform of the n values of x. */
  ghost function Transform(t: Trig, isign: int, n: nat, x: CVector, k: int): Complex
    requires n > 0
  {
    Sum(n, Term(t, isign, n, x, k))
  }

  /** The values of x at offset r and every s-th position after it. */
  ghost function Every(x: CVector, s: int, r: int): CVector {
    j => x(r + s * j)
  }

  lemma TransformCongruence(t: Trig, isign: int, n: nat, x: CVector, y: CVector, k: int)
    requires n > 0 && forall j | 0 <= j < n :: x(j) == y(j)
    ensures Transform(t, isign, n, x, k) == Transform(t, isign, n, y, k)
  {
    SumCongruence(n, Term(t, isign, n, x, k), Term(t, isign, n, y, k));
  }

  lemma EvenTerm(t: Trig, isign: int, n: nat, x: CVector, s: int, r: int, k: int, j: int)
    requires n > 0
    ensures Term(t, isign, 2 * n, Every(x, s, r), k)(2 * j) == Term(t, isign, n, Every(x, 2 * s, r), k)(j)
  {
    assert r + s * (2 * j) == r + 2 * s * j;
    assert (2 * j) * k == 2 * (j * k);
    RootHalves(t, isign, n, j * k);
  }

  lemma OddTerm(t: Trig, isign: int, n: nat, x: CVector, s: int, r: int, k: int, j: int)
    requires Lawful(t) && n > 0
    ensures Term(t, isign, 2 * n, Every(x, s, r), k)(2 * j + 1)
         == Mul(Root(t, isign, 2 * n, k), Term(t, isign, n, Every(x, 2 * s, r + s), k)(j))
  {
    assert r + s * (2 * j + 1) == r + s + 2 * s * j;
    assert (2 * j + 1) * k == 2 * (j * k) + k;
    RootHalves(t, isign, n, j * k);
    RootSum(t, isign, 2 * n, 2 * (j * k), k);
    var v, p, q := Every(x, 2 * s, r + s)(j), Root(t, isign, n, j * k), Root(t, isign, 2 * n, k);
    MulAssociates(v, p, q);
    MulCommutes(Mul(v, p), q);
  }

  /** A transform of 2n values from the transforms of its even and odd values. */
  lemma Halves(t: Trig, isign: int, n: nat, x: CVector, s: int, r: int, k: int)
    requires Lawful(t) && n > 0
    ensures Transform(t, isign, 2 * n, Every(x, s, r), k)
         == Add(Transform(t, isign, n, Every(x, 2 * s, r), k),
                Mul(Root(t, isign, 2 * n, k), Transform(t, isign, n, Every(x, 2 * s, r + s), k)))
  {
    var f := Term(t, isign, 2 * n, Every(x, s, r), k);
    var w := Root(t, isign, 2 * n, k);
    var even, g := Term(t, isign, n, Every(x, 2 * s, r), k), Term(t, isign, n, Every(x, 2 * s, r + s), k);
    var odd: CVector := j => Mul(w, g(j));
    forall j | 0 <= j < n
      ensures even(j) == f(2 * j) && odd(j) == f(2 * j + 1)
    {
      EvenTerm(t, isign, n, x, s, r, k, j);
      OddTerm(t, isign, n, x, s, r, k, j);
    }
    SumHalves(n, f, even, odd);
    SumScale(n, w, g, odd);
  }

  /** The transform is periodic. */
  lemma Periodic(t: Trig, isign: int, n: nat, x: CVector, k: int)
    requires Lawful(t) && n > 0 && (isign == 1 || isign == -1)
    ensures Transform(t, isign, n, x, k + n) == Transform(t, isign, n, x, k)
  {
    forall j | 0 <= j < n
      ensures Term(t, isign, n, x, k + n)(j) == Term(t, isign, n, x, k)(j)
    {
      assert j * (k + n) == j * k + j * n;
      RootSum(t, isign, n, j * k, j * n);
      RootMultiple(t, isign, n, j);
      MulOne(Root(t, isign, n, j * k));
    }
    SumCongruence(n, Term(t, isign, n, x, k + n), Term(t, isign, n, x, k));
  }

  lemma MulOne(a: Complex)
    ensures Mul(a, One) == a
  {
  }

  lemma RootNext(t: Trig, isign: int, n: nat, q: int)
    requires Lawful(t) && n > 0 && (isign == 1 || isign == -1)
    ensures Root(t, isign, n, q + n) == Root(t, isign, n, q)
  {
    RootFull(t, isign, n);
    RootSum(t, isign, n, q, n);
    MulOne(Root(t, isign, n, q));
  }

  lemma {:induction false} RootMultiple(t: Trig, isign: int, n: nat, j: nat)
    requires Lawful(t) && n > 0 && (isign == 1 || isign == -1)
    ensures Root(t, isign, n, j * n) == One
  {
    if j == 0 {
      RootZero(t, isign, n);
    } else {
      RootMultiple(t, isign, n, j - 1);
      RootNext(t, isign, n, (j - 1) * n);
    }
  }

  /** Half a turn changes the sign of a root. */
  lemma RootOpposite(t: Trig, isign: int, n: nat, k: int)
    requires Lawful(t) && n > 0 && (isign == 1 || isign == -1)
    ensures Root(t, isign, 2 * n, k + n) == Neg(Root(t, isign, 2 * n, k))
  {
    RootSum(t, isign, 2 * n, k, n);
    RootMiddle(t, isign, n);
    MulMinusOne(Root(t, isign, 2 * n, k));
  }

  lemma MulMinusOne(a: Complex)
    ensures Mul(a, Complex(-1.0, 0.0)) == Neg(a)
  {
  }

  lemma AddNegated(e: Complex, w: Complex, o: Complex)
    ensures Add(e, Mul(Neg(w), o)) == Sub(e, Mul(w, o))
  {
  }

  /** The two values a butterfly computes from the transforms of the even and
      the odd values: those at k and at k + n. */
  lemma Butterfly(t: Trig, isign: int, n: nat, x: CVector, s: int, r: int, k: int)
    requires Lawful(t) && n > 0 && (isign == 1 || isign == -1)
    ensures var e := Transform(t, isign, n, Every(x, 2 * s, r), k);
            var o := Mul(Root(t, isign, 2 * n, k), Transform(t, isign, n, Every(x, 2 * s, r + s), k));
            && Transform(t, isign, 2 * n, Every(x, s, r), k) == Add(e, o)
            && Transform(t, isign, 2 * n, Every(x, s, r), k + n) == Sub(e, o)
  {
    Halves(t, isign, n, x, s, r, k);
    UpperHalf(t, isign, n, x, s, r, k);
  }

  lemma UpperHalf(t: Trig, isign: int, n: nat, x: CVector, s: int, r: int, k: int)
    requires Lawful(t) && n > 0 && (isign == 1 || isign == -1)
    ensures Transform(t, isign, 2 * n, Every(x, s, r), k + n)
         == Sub(Transform(t, isign, n, Every(x, 2 * s, r), k),
                Mul(Root(t, isign, 2 * n, k), Transform(t, isign, n, Every(x, 2 * s, r + s), k)))
  {
    Halves(t, isign, n, x, s, r, k + n);
    Periodic(t, isign, n, Every(x, 2 * s, r), k);
    Periodic(t, isign, n, Every(x, 2 * s, r + s), k);
    RootOpposite(t, isign, n, k);
    AddNegated(Transform(t, isign, n, Every(x, 2 * s, r), k), Root(t, isign, 2 * n, k),
               Transform(t, isign, n, Every(x, 2 * s, r + s), k));
  }
}
