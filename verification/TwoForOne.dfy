/** Two real vectors transformed by one complex transform, and back. */
module TwoForOne {
  import opened Complex
  import opened Roots
  import opened Dft
  import opened BitReversal
  import opened Fourier
  import opened Inversion

  const I := Complex(0.0, 1.0)

  /** x + i y */
  ghost function Packed(x: CVector, y: CVector): CVector {
    p => Add(x(p), Mul(I, y(p)))
  }

  /** x is the real vector in the even positions of an array. */
  ghost predicate RealsOf(r: array<real>, len: nat, x: CVector)
    reads r
  {
    r.Length >= 2 * len && forall p | 0 <= p < len :: x(p) == Complex(Item(r, 0, p).re, 0.0)
  }

  lemma PackedTransform(t: Trig, isign: int, n: nat, x: CVector, y: CVector, k: int)
    requires n > 0
    ensures Transform(t, isign, n, Packed(x, y), k)
         == Add(Transform(t, isign, n, x, k), Mul(I, Transform(t, isign, n, y, k)))
  {
    var f, g, h := Term(t, isign, n, x, k), Term(t, isign, n, y, k), Term(t, isign, n, Packed(x, y), k);
    var ig: CVector := j => Mul(I, g(j));
    forall j | 0 <= j < n
      ensures h(j) == Add(f(j), ig(j))
    {
      PackedProduct(x(j), y(j), Root(t, isign, n, j * k));
    }
    SumAdd(n, f, ig, h);
    SumScale(n, I, g, ig);
  }

  lemma PackedProduct(x: Complex, y: Complex, w: Complex)
    ensures Mul(Add(x, Mul(I, y)), w) == Add(Mul(x, w), Mul(I, Mul(y, w)))
  {
    MulCommutes(Add(x, Mul(I, y)), w);
    MulAdds(w, x, Mul(I, y));
    MulCommutes(w, x);
    MulCommutes(w, Mul(I, y));
    MulAssociates(I, y, w);
  }

  /** The transform of real values is symmetric up to conjugation. */
  lemma RealSymmetry(t: Trig, isign: int, n: nat, x: CVector, k: nat)
    requires Lawful(t) && (isign == 1 || isign == -1) && k <= n && n > 0
    requires forall p | 0 <= p < n :: x(p).im == 0.0
    ensures Transform(t, isign, n, x, n - k) == Conj(Transform(t, isign, n, x, k))
  {
    var f, h := Term(t, isign, n, x, k), Term(t, isign, n, x, n - k);
    forall j | 0 <= j < n
      ensures h(j) == Conj(f(j))
    {
      MirroredRoot(t, isign, n, k, j);
      ConjMul(x(j), Root(t, isign, n, j * k));
    }
    SumConj(n, f, h);
  }

  lemma MirroredRoot(t: Trig, isign: int, n: nat, k: nat, j: nat)
    requires Lawful(t) && (isign == 1 || isign == -1) && n > 0
    ensures Root(t, isign, n, j * (n - k)) == Conj(Root(t, isign, n, j * k))
  {
    assert j * (n - k) == j * n + -(j * k);
    RootSum(t, isign, n, j * n, -(j * k));
    RootMultiple(t, isign, n, j);
    RootConj(t, isign, n, j * k);
    MulCommutes(One, Root(t, isign, n, -(j * k)));
    MulOne(Root(t, isign, n, -(j * k)));
  }

  /** The even and odd parts of the packed transform at k and n - k are the two
      transforms at k. */
  lemma Separation(f: Complex, g: Complex)
    ensures var z, y := Add(f, Mul(I, g)), Add(Conj(f), Mul(I, Conj(g)));
            && f == Complex(0.5 * (z.re + y.re), 0.5 * (z.im - y.im))
            && g == Complex(0.5 * (z.im + y.im), -(0.5 * (z.re - y.re)))
  {
  }

  /** The state of the separation: indices below q and above n - q hold the two
      transforms, those between still the packed one. */
  ghost predicate Separated(n: nat, u: CVector, v: CVector, z: CVector, f: CVector, g: CVector, q: nat) {
    forall p | 0 <= p < n ::
      if q <= p <= n - q then u(p) == z(p) else u(p) == f(p) && v(p) == g(p)
  }

  ghost predicate Symmetric(n: nat, f: CVector) {
    f(0).im == 0.0 && forall q | 0 <= q <= n :: f(n - q) == Conj(f(q))
  }

  ghost predicate PackedIs(n: nat, z: CVector, f: CVector, g: CVector) {
    forall q | 0 <= q <= n :: z(q) == Add(f(q), Mul(I, g(q)))
  }

  /** The values after q and n - q have received a value and its conjugate. */
  ghost function Mirrored(n: nat, u: CVector, q: nat, c: Complex): CVector {
    p => if p == n - q then Conj(c) else if p == q then c else u(p)
  }

  /** The values the code computes for the two transforms from the packed one. */
  function First(a: Complex, b: Complex): Complex {
    Complex(0.5 * (a.re + b.re), 0.5 * (a.im - b.im))
  }

  function Second(a: Complex, b: Complex): Complex {
    Complex(0.5 * (a.im + b.im), -(0.5 * (a.re - b.re)))
  }

  lemma SeparateStep(n: nat, u: CVector, v: CVector, z: CVector, f: CVector, g: CVector, q: nat)
    requires 0 < q && 2 * q <= n && Separated(n, u, v, z, f, g, q)
    requires Symmetric(n, f) && Symmetric(n, g) && PackedIs(n, z, f, g)
    ensures Separated(n, Mirrored(n, u, q, First(u(q), u(n - q))), Mirrored(n, v, q, Second(u(q), u(n - q))), z, f, g, q + 1)
  {
    assert u(q) == z(q) && u(n - q) == z(n - q);
    assert f(n - q) == Conj(f(q)) && g(n - q) == Conj(g(q));
    assert z(q) == Add(f(q), Mul(I, g(q))) && z(n - q) == Add(f(n - q), Mul(I, g(n - q)));
    Separation(f(q), g(q));
  }

  /** Stores re + i im at index q = j/2 and its conjugate at len - q. */
  method StoreMirrored(r: array<real>, len: nat, j: nat, re: real, im: real, ghost q: nat, ghost u: CVector)
    requires 0 < q && 2 * q <= len && j == 2 * q && Stores(r, 0, len, u)
    modifies r
    ensures Stores(r, 0, len, Mirrored(len, u, q, Complex(re, im)))
  {
    var n2 := 2 * len;
    var n3 := 1 + n2;
    r[j + 1] := im;
    r[j], r[n2 - j] := re, re;
    r[n3 - j] := -im;
    assert n2 - j == 2 * (len - q) && n3 - j == 2 * (len - q) + 1;
    ghost var w := Mirrored(len, u, q, Complex(re, im));
    forall p | 0 <= p < len
      ensures w(p) == Item(r, 0, p)
    {
      if p != q && p != len - q { assert u(p) == old(Item(r, 0, p)); }
    }
  }

  /** Puts the two real vectors into one complex vector. */
  method Pack(r1: array<real>, r2: array<real>, len: nat, ghost x: CVector, ghost y: CVector)
    requires r1 != r2 && RealsOf(r1, len, x) && RealsOf(r2, len, y)
    modifies r1
    ensures Stores(r1, 0, len, Packed(x, y))
  {
    var n2, j := 2 * len, 1;
    ghost var q := 0;
    while j <= n2
      invariant j == 2 * q + 1 && q <= len
      invariant forall p | 0 <= p < len :: Item(r1, 0, p).re == x(p).re && Item(r2, 0, p).re == y(p).re
      invariant forall p | 0 <= p < q :: Item(r1, 0, p).im == y(p).re
    {
      assert Item(r2, 0, q).re == y(q).re;
      r1[j] := r2[j - 1];
      j, q := j + 2, q + 1;
    }
    ghost var z := Packed(x, y);
    forall p | 0 <= p < len
      ensures z(p) == Item(r1, 0, p)
    {
      assert x(p) == Complex(x(p).re, 0.0) && y(p) == Complex(y(p).re, 0.0);
    }
  }

  lemma ZeroStep(n: nat, z: CVector, f: CVector, g: CVector, v: CVector)
    requires n > 0 && Symmetric(n, f) && Symmetric(n, g) && PackedIs(n, z, f, g)
    ensures Separated(n, Put(z, 0, Complex(z(0).re, 0.0)), Put(v, 0, Complex(z(0).im, 0.0)), z, f, g, 1)
  {
    assert z(0) == Add(f(0), Mul(I, g(0)));
  }

  /** The DC values of the two transforms, which are real. */
  method SeparateZero(r1: array<real>, r2: array<real>, len: nat, ghost z: CVector, ghost v: CVector)
    requires len > 0 && r1 != r2 && Stores(r1, 0, len, z) && Stores(r2, 0, len, v)
    modifies r1, r2
    ensures Stores(r1, 0, len, Put(z, 0, Complex(z(0).re, 0.0)))
    ensures Stores(r2, 0, len, Put(v, 0, Complex(z(0).im, 0.0)))
  {
    assert z(0) == Item(r1, 0, 0);
    Store(r2, 0, len, 0, r1[1], 0.0, v);
    Store(r1, 0, len, 0, r1[0], 0.0, z);
  }

  /** The symmetric and antisymmetric parts at j and n2 - j. */
  method Parts(r1: array<real>, len: nat, j: nat, ghost q: nat, ghost u: CVector) returns (rep: real, rem: real, aip: real, aim: real)
    requires 0 < q && 2 * q <= len && j == 2 * q && Stores(r1, 0, len, u)
    ensures Complex(rep, aim) == First(u(q), u(len - q)) && Complex(aip, -rem) == Second(u(q), u(len - q))
  {
    var n2 := 2 * len;
    var n3 := 1 + n2;
    assert u(q) == Item(r1, 0, q) && u(len - q) == Item(r1, 0, len - q);
    rep := 0.5 * (r1[j] + r1[n2 - j]);
    rem := 0.5 * (r1[j] - r1[n2 - j]);
    aip := 0.5 * (r1[j + 1] + r1[n3 - j]);
    aim := 0.5 * (r1[j + 1] - r1[n3 - j]);
  }

  /** One turn of the separation, at q = j/2. */
  method SeparatePair(r1: array<real>, r2: array<real>, len: nat, j: nat, ghost q: nat, ghost u: CVector, ghost v: CVector)
    requires 0 < q && 2 * q <= len && j == 2 * q && r1 != r2 && Stores(r1, 0, len, u) && Stores(r2, 0, len, v)
    modifies r1, r2
    ensures Stores(r1, 0, len, Mirrored(len, u, q, First(u(q), u(len - q))))
    ensures Stores(r2, 0, len, Mirrored(len, v, q, Second(u(q), u(len - q))))
  {
    var rep, rem, aip, aim := Parts(r1, len, j, q, u);
    StoreMirrored(r1, len, j, rep, aim, q, u);
    StoreMirrored(r2, len, j, aip, -rem, q, v);
  }

  lemma AllSeparated(n: nat, u: CVector, v: CVector, z: CVector, f: CVector, g: CVector, q: nat)
    requires Separated(n, u, v, z, f, g, q) && 2 * q > n
    ensures forall p | 0 <= p < n :: u(p) == f(p) && v(p) == g(p)
  {
  }

  /** Separates the transform of the packed vector into the two transforms. */
  method Separate(r1: array<real>, r2: array<real>, len: nat, ghost z: CVector, ghost f: CVector, ghost g: CVector)
    requires len > 0 && r1 != r2 && r2.Length >= 2 * len && Stores(r1, 0, len, z)
    requires Symmetric(len, f) && Symmetric(len, g) && PackedIs(len, z, f, g)
    modifies r1, r2
    ensures Stores(r1, 0, len, f) && Stores(r2, 0, len, g)
  {
    ghost var v := Values(r2[..], 0);
    assert forall p | 0 <= p < len :: v(p) == Item(r2, 0, p);
    SeparateZero(r1, r2, len, z, v);
    ZeroStep(len, z, f, g, v);
    SeparateRest(r1, r2, len, z, f, g, Put(z, 0, Complex(z(0).re, 0.0)), Put(v, 0, Complex(z(0).im, 0.0)));
  }

  method SeparateRest(r1: array<real>, r2: array<real>, len: nat, ghost z: CVector, ghost f: CVector, ghost g: CVector,
                      ghost u0: CVector, ghost v0: CVector)
    requires r1 != r2 && Stores(r1, 0, len, u0) && Stores(r2, 0, len, v0) && Separated(len, u0, v0, z, f, g, 1)
    requires Symmetric(len, f) && Symmetric(len, g) && PackedIs(len, z, f, g)
    modifies r1, r2
    ensures Stores(r1, 0, len, f) && Stores(r2, 0, len, g)
  {
    ghost var u, v, q := u0, v0, 1;
    var j := 2;
    while j <= len
      invariant j == 2 * q && q > 0
      invariant Stores(r1, 0, len, u) && Stores(r2, 0, len, v) && Separated(len, u, v, z, f, g, q)
    {
      SeparatePair(r1, r2, len, j, q, u, v);
      SeparateStep(len, u, v, z, f, g, q);
      u, v := Mirrored(len, u, q, First(u(q), u(len - q))), Mirrored(len, v, q, Second(u(q), u(len - q)));
      j, q := j + 2, q + 1;
    }
    AllSeparated(len, u, v, z, f, g, q);
  }

  lemma RealSpectrum(t: Trig, isign: int, n: nat, x: CVector)
    requires Lawful(t) && (isign == 1 || isign == -1) && n > 0 && forall p | 0 <= p < n :: x(p).im == 0.0
    ensures Symmetric(n, Spectrum(t, isign, n, x))
  {
    forall q | 0 <= q <= n
      ensures Spectrum(t, isign, n, x)(n - q) == Conj(Spectrum(t, isign, n, x)(q))
    {
      RealSymmetry(t, isign, n, x, q);
    }
    Periodic(t, isign, n, x, 0);
    RealSymmetry(t, isign, n, x, n);
  }

  lemma PackedSpectrum(t: Trig, isign: int, n: nat, x: CVector, y: CVector)
    requires n > 0
    ensures PackedIs(n, Spectrum(t, isign, n, Packed(x, y)), Spectrum(t, isign, n, x), Spectrum(t, isign, n, y))
  {
    forall q | 0 <= q <= n
      ensures Spectrum(t, isign, n, Packed(x, y))(q)
           == Add(Spectrum(t, isign, n, x)(q), Mul(I, Spectrum(t, isign, n, y)(q)))
    {
      PackedTransform(t, isign, n, x, y, q);
    }
  }

  /** Two real vectors, in the even positions, become their transforms. */
  method FftTwoReal(t: Trig, r1: array<real>, r2: array<real>, len: nat, ghost bits: nat, ghost x: CVector, ghost y: CVector)
    requires Lawful(t) && len == Pow2(bits) && r1 != r2 && RealsOf(r1, len, x) && RealsOf(r2, len, y)
    modifies r1, r2
    ensures Stores(r1, 0, len, Spectrum(t, 1, len, x)) && Stores(r2, 0, len, Spectrum(t, 1, len, y))
  {
    Pack(r1, r2, len, x, y);
    Transformed(t, r1, len, 1, bits, Packed(x, y));
    RealSpectrum(t, 1, len, x);
    RealSpectrum(t, 1, len, y);
    PackedSpectrum(t, 1, len, x, y);
    Separate(r1, r2, len, Spectrum(t, 1, len, Packed(x, y)), Spectrum(t, 1, len, x), Spectrum(t, 1, len, y));
  }

  /** The fast transform, on the values a section is known to hold. */
  method Transformed(t: Trig, data: array<real>, len: nat, isign: int, ghost bits: nat, ghost x: CVector)
    requires Lawful(t) && len == Pow2(bits) && Stores(data, 0, len, x) && (isign == 1 || isign == -1)
    modifies data
    ensures Stores(data, 0, len, Spectrum(t, isign, len, x))
  {
    ghost var y := Values(data[..], 0);
    assert forall p | 0 <= p < len :: y(p) == Item(data, 0, p);
    Fft1d(t, data, 0, len, isign, bits);
    ghost var z := Spectrum(t, isign, len, x);
    forall k | 0 <= k < len
      ensures z(k) == Item(data, 0, k)
    {
      TransformCongruence(t, isign, len, y, x, k);
    }
  }

  // ---------------------------------------------------------------- inverse

  method CombineItem(r1: array<real>, r2: array<real>, len: nat, j: nat, ghost q: nat, ghost f: CVector, ghost g: CVector)
    returns (r: real, i: real)
    requires q < len && j == 2 * q && r1.Length >= 2 * len && f(q) == Item(r1, 0, q) && Stores(r2, 0, len, g)
    ensures Complex(r, i) == Packed(f, g)(q)
  {
    assert g(q) == Item(r2, 0, q);
    r := r1[j] - r2[j + 1];
    i := r1[j + 1] + r2[j];
  }

  /** The first q values are packed. */
  ghost function PartlyPacked(f: CVector, g: CVector, q: nat): CVector {
    p => if p < q then Packed(f, g)(p) else f(p)
  }

  /** Puts two spectra into one complex vector. */
  method PackSpectra(r1: array<real>, r2: array<real>, len: nat, ghost f: CVector, ghost g: CVector)
    requires r1 != r2 && Stores(r1, 0, len, f) && Stores(r2, 0, len, g)
    modifies r1
    ensures Stores(r1, 0, len, Packed(f, g))
  {
    assert forall p | 0 <= p < len :: PartlyPacked(f, g, 0)(p) == f(p);
    for q := 0 to len
      invariant Stores(r1, 0, len, PartlyPacked(f, g, q)) && Stores(r2, 0, len, g)
    {
      assert PartlyPacked(f, g, q)(q) == Item(r1, 0, q);
      var r, i := CombineItem(r1, r2, len, 2 * q, q, f, g);
      Store(r1, 0, len, q, r, i, PartlyPacked(f, g, q));
      assert forall p | 0 <= p < len :: PartlyPacked(f, g, q + 1)(p) == Put(PartlyPacked(f, g, q), q, Complex(r, i))(p);
    }
    assert forall p | 0 <= p < len :: Packed(f, g)(p) == PartlyPacked(f, g, len)(p);
  }

  /** The two arrays hold the real and the imaginary parts of z. */
  ghost predicate SplitOf(r1: array<real>, r2: array<real>, len: nat, z: CVector)
    reads r1, r2
  {
    && r1.Length >= 2 * len && r2.Length >= 2 * len
    && forall p | 0 <= p < len :: Item(r1, 0, p) == Complex(z(p).re, 0.0) && Item(r2, 0, p) == Complex(z(p).im, 0.0)
  }

  /** Splits a complex vector into its real and imaginary parts. */
  method Split(r1: array<real>, r2: array<real>, len: nat, ghost z: CVector)
    requires r1 != r2 && Stores(r1, 0, len, z) && r2.Length >= 2 * len
    modifies r1, r2
    ensures SplitOf(r1, r2, len, z)
  {
    var nn, j := 2 * len, 0;
    ghost var q := 0;
    while j < nn
      invariant j == 2 * q && q <= len
      invariant forall p | 0 <= p < len :: Item(r1, 0, p) == if p < q then Complex(z(p).re, 0.0) else z(p)
      invariant forall p | 0 <= p < q :: Item(r2, 0, p) == Complex(z(p).im, 0.0)
    {
      assert Item(r1, 0, q) == z(q);
      r2[j] := r1[j + 1];
      r1[j + 1], r2[j + 1] := 0.0, 0.0;
      j, q := j + 2, q + 1;
    }
  }

  /** Two spectra become the real and the imaginary part of the inverse transform
      of their combination. */
  method IfftTwoReal(t: Trig, r1: array<real>, r2: array<real>, len: nat, ghost bits: nat, ghost f: CVector, ghost g: CVector)
    requires Lawful(t) && len == Pow2(bits) && r1 != r2 && Stores(r1, 0, len, f) && Stores(r2, 0, len, g)
    modifies r1, r2
    ensures SplitOf(r1, r2, len, Spectrum(t, -1, len, Packed(f, g)))
  {
    PackSpectra(r1, r2, len, f, g);
    Transformed(t, r1, len, -1, bits, Packed(f, g));
    Split(r1, r2, len, Spectrum(t, -1, len, Packed(f, g)));
  }

  /** Both transforms and back: the two real vectors, multiplied by the length,
      with all imaginary positions zero. */
  method TwoRealThereAndBack(t: Trig, r1: array<real>, r2: array<real>, len: nat, ghost bits: nat, ghost x: CVector, ghost y: CVector)
    requires Lawful(t) && len == Pow2(bits) && r1 != r2 && RealsOf(r1, len, x) && RealsOf(r2, len, y)
    modifies r1, r2
    ensures SplitOf(r1, r2, len, Enlarged(x, y, len))
  {
    ghost var z := Spectrum(t, -1, len, Packed(Spectrum(t, 1, len, x), Spectrum(t, 1, len, y)));
    PackedInverses(t, len, x, y);
    FftTwoReal(t, r1, r2, len, bits, x, y);
    IfftTwoReal(t, r1, r2, len, bits, Spectrum(t, 1, len, x), Spectrum(t, 1, len, y));
    assert forall p | 0 <= p < len :: z(p) == Enlarged(x, y, len)(p);
  }

  /** Two real vectors side by side, multiplied by n. */
  ghost function Enlarged(x: CVector, y: CVector, n: nat): CVector {
    p => Complex(x(p).re * (n as real), y(p).re * (n as real))
  }

  lemma PackedInverses(t: Trig, n: nat, x: CVector, y: CVector)
    requires Lawful(t) && n > 0 && forall p | 0 <= p < n :: x(p).im == 0.0 && y(p).im == 0.0
    ensures forall p | 0 <= p < n ::
              Spectrum(t, -1, n, Packed(Spectrum(t, 1, n, x), Spectrum(t, 1, n, y)))(p) == Enlarged(x, y, n)(p)
  {
    forall p | 0 <= p < n
      ensures Spectrum(t, -1, n, Packed(Spectrum(t, 1, n, x), Spectrum(t, 1, n, y)))(p) == Enlarged(x, y, n)(p)
    {
      PackedInverse(t, n, x, y, p);
    }
  }

  lemma PackedInverse(t: Trig, n: nat, x: CVector, y: CVector, p: nat)
    requires Lawful(t) && p < n && x(p).im == 0.0 && y(p).im == 0.0
    ensures Transform(t, -1, n, Packed(Spectrum(t, 1, n, x), Spectrum(t, 1, n, y)), p)
         == Complex(x(p).re * (n as real), y(p).re * (n as real))
  {
    PackedTransform(t, -1, n, Spectrum(t, 1, n, x), Spectrum(t, 1, n, y), p);
    InverseTransform(t, 1, n, x, p);
    InverseTransform(t, 1, n, y, p);
  }
}
