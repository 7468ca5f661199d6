/** The transforms of vectors: fast with zero padding, slow for every length, and
    the slow one in place. */
module Transforms {
  import opened Complex
  import opened Roots
  import opened Dft
  import opened BitReversal
  import opened Fourier
  import opened Inversion

  /** The values of a vector, continued by zeros. */
  ghost function Padded(v: seq<Complex>): CVector {
    i => if 0 <= i < |v| then v[i] else Zero
  }

  /** The inverse transform is scaled by the length. */
  function Scaled(isign: int, n: nat, c: Complex): Complex
    requires n > 0
  {
    if isign < 0 then Complex(c.re / (n as real), c.im / (n as real)) else c
  }

  /** The transform of n values of a vector, as the documentation defines it. */
  ghost function Spectral(t: Trig, isign: int, n: nat, v: seq<Complex>): (r: seq<Complex>)
    requires n > 0
  {
    seq(n, i => Scaled(isign, n, Transform(t, isign, n, Padded(v), i)))
  }

  /** The inverse transform of the transform gives back the vector, padded. */
  lemma RoundTrip(t: Trig, n: nat, v: seq<Complex>)
    requires Lawful(t) && n > 0 && |v| <= n
    ensures Spectral(t, -1, n, Spectral(t, 1, n, v)) == v + seq(n - |v|, i => Zero)
  {
    var x, y := Padded(v), Padded(Spectral(t, 1, n, v));
    var r := Spectral(t, -1, n, Spectral(t, 1, n, v));
    forall m | 0 <= m < n
      ensures r[m] == x(m)
    {
      TransformCongruence(t, -1, n, y, Spectrum(t, 1, n, x), m);
      InverseTransform(t, 1, n, x, m);
      Unscale(x(m), n);
    }
  }

  lemma Unscale(c: Complex, n: nat)
    requires n > 0
    ensures Scaled(-1, n, Mul(c, OfNat(n))) == c
  {
    Quotients(c.re, n as real);
    Quotients(c.im, n as real);
  }

  lemma Quotients(x: real, y: real)
    requires y > 0.0
    ensures x * y / y == x
  {
  }

  // ------------------------------------------------------------ fft_1d

  /** The first of the sizes s, 2s, 4s, ... that holds len values. */
  function SizeFrom(s: nat, len: nat): nat
    requires s > 0
    decreases len - s
  {
    if s < len then SizeFrom(2 * s, len) else s
  }

  lemma {:induction false} SizeIsStable(a: nat, b: nat)
    requires a <= b
    ensures SizeFrom(Pow2(a), Pow2(b)) == Pow2(b)
    decreases b - a
  {
    Pow2Grows(a, b);
    if a < b { SizeIsStable(a + 1, b); }
  }

  /** The values of a vector as real and imaginary parts in turn, then zeros. */
  method Interleave(v: seq<Complex>, size: nat) returns (data: array<real>)
    requires |v| <= size
    ensures fresh(data) && data.Length == 2 * size && Stores(data, 0, size, Padded(v))
  {
    data := new real[2 * size](i => 0.0);
    ghost var x: CVector := i => Zero;
    assert forall i | 0 <= i < size :: Item(data, 0, i) == x(i);
    for i := 0 to |v|
      invariant Stores(data, 0, size, x)
      invariant forall k | 0 <= k < size :: x(k) == if k < i then v[k] else Zero
    {
      Store(data, 0, size, i, v[i].re, v[i].im, x);
      x := Put(x, i, v[i]);
    }
  }

  /** The stored values, scaled for the inverse transform. */
  method Collect(data: array<real>, size: nat, isign: int, ghost z: CVector) returns (res: seq<Complex>)
    requires size > 0 && Stores(data, 0, size, z)
    ensures |res| == size && forall i | 0 <= i < size :: res[i] == Scaled(isign, size, z(i))
  {
    res := [];
    for i := 0 to size
      invariant |res| == i && forall k | 0 <= k < i :: res[k] == Scaled(isign, size, z(k))
    {
      assert z(i) == Item(data, 0, i);
      res := res + [Scaled(isign, size, Complex(data[2 * i], data[2 * i + 1]))];
    }
  }

  /** The least power of two from 2 on that holds len values. */
  method BinarySize(len: nat) returns (size: nat, ghost bits: nat)
    ensures size == SizeFrom(2, len) >= len
    ensures bits > 0 && size == Pow2(bits) && (bits > 1 ==> Pow2(bits - 1) < len)
  {
    size, bits := 2, 1;
    assert Pow2(1) == 2;
    while size < len
      invariant bits > 0 && size == Pow2(bits) && SizeFrom(2, len) == SizeFrom(size, len)
      invariant bits > 1 ==> Pow2(bits - 1) < len
      decreases len - size
    {
      size, bits := 2 * size, bits + 1;
    }
  }

  /** fft_1d: the transform of a vector padded to a power of two. */
  method FftVector(t: Trig, v: seq<Complex>, isign: int) returns (res: seq<Complex>, ghost bits: nat)
    requires Lawful(t) && (isign == 1 || isign == -1)
    ensures |res| == SizeFrom(2, |v|) >= |v| && |res| > 0
    ensures res == Spectral(t, isign, |res|, v)
    ensures bits > 0 && |res| == Pow2(bits)
  {
    var size;
    size, bits := BinarySize(|v|);
    var data := Interleave(v, size);
    ghost var x, y := Padded(v), Values(data[..], 0);
    assert forall i | 0 <= i < size :: y(i) == Item(data, 0, i);
    Fft1d(t, data, 0, size, isign, bits);
    ghost var z := Spectrum(t, isign, size, x);
    forall i | 0 <= i < size
      ensures z(i) == Item(data, 0, i)
    {
      TransformCongruence(t, isign, size, y, x, i);
    }
    res := Collect(data, size, isign, z);
  }

  /** ifft_1d after fft_1d: the vector comes back, padded to the size of the
      transform. */
  method FftThereAndBack(t: Trig, v: seq<Complex>) returns (res: seq<Complex>)
    requires Lawful(t)
    ensures |res| == SizeFrom(2, |v|) >= |v|
    ensures res == v + seq(|res| - |v|, i => Zero)
  {
    var there, bits := FftVector(t, v, 1);
    ghost var again;
    res, again := FftVector(t, there, -1);
    assert Pow2(1) == 2;
    SizeIsStable(1, bits);
    RoundTrip(t, Pow2(bits), v);
  }

  // ------------------------------------------------------------ dft_1d

  /** The angle th k of the slow transform is that of the root of unity. */
  lemma SlowAngle(t: Trig, isign: int, len: nat, n: nat, k: nat)
    requires len > 0
    ensures -(isign as real) * 2.0 * t.pi * (n as real) / (len as real) * (k as real) == Angle(t, isign, len, k * n)
  {
    var c := Turn(t, isign);
    assert -(isign as real) * 2.0 * t.pi == c;
    Rearranged(c, n as real, k as real, len as real);
    assert (k * n) as real == (k as real) * (n as real);
  }

  lemma Rearranged(c: real, n: real, k: real, l: real)
    requires l > 0.0
    ensures c * n / l * k == c * (k * n) / l
  {
    assert c * n * k == c * (k * n);
  }

  lemma SlowTerm(t: Trig, isign: int, v: seq<Complex>, n: nat, k: nat, th: real, a: real)
    requires k < |v| && th == -(isign as real) * 2.0 * t.pi * (n as real) / (|v| as real) && a == th * (k as real)
    ensures Mul(v[k], Polar(t, a)) == Term(t, isign, |v|, Padded(v), n)(k)
  {
    SlowAngle(t, isign, |v|, n, k);
    assert a == Angle(t, isign, |v|, k * n);
    assert Padded(v)(k) == v[k];
    assert Root(t, isign, |v|, k * n) == Polar(t, a);
    assert Term(t, isign, |v|, Padded(v), n)(k) == Mul(Padded(v)(k), Root(t, isign, |v|, k * n));
  }

  /** dft_1d, for every length. */
  method DftVector(t: Trig, v: seq<Complex>, isign: int) returns (res: seq<Complex>)
    ensures v != [] ==> res == Spectral(t, isign, |v|, v)
    ensures v == [] ==> res == []
  {
    var len := |v|;
    res := [];
    for n := 0 to len
      invariant |res| == n && forall i | 0 <= i < n :: res[i] == Scaled(isign, len, Transform(t, isign, len, Padded(v), i))
    {
      var th := -(isign as real) * 2.0 * t.pi * (n as real) / (len as real);
      var val := Zero;
      for k := 0 to len
        invariant val == Sum(k, Term(t, isign, len, Padded(v), n))
      {
        var a := th * (k as real);
        SlowTerm(t, isign, v, n, k, th, a);
        val := Add(val, Mul(v[k], Polar(t, a)));
      }
      res := res + [Scaled(isign, len, val)];
    }
  }

  /** idft_1d after dft_1d gives back the vector, for every length. */
  method DftThereAndBack(t: Trig, v: seq<Complex>) returns (res: seq<Complex>)
    requires Lawful(t)
    ensures res == v
  {
    var there := DftVector(t, v, 1);
    res := DftVector(t, there, -1);
    if v != [] { RoundTrip(t, |v|, v); }
  }

  /** The slow transform's real arithmetic: c and s are the parts of a root. */
  lemma SlowRoot(t: Trig, isign: int, len: nat, n: nat, k: nat, a: real)
    requires Lawful(t) && len > 0 && (isign == 1 || isign == -1)
    requires a == ((2 * k) as real) * (((2 * n) as real) * t.pi / 2.0 / (len as real))
    ensures Root(t, isign, len, k * n) == Complex(t.cos(a), -((isign as real) * t.sin(a)))
  {
    HalfIndexAngle(t, len, n, k);
    assert Root(t, -1, len, k * n) == Complex(t.cos(a), t.sin(a));
    RootConj(t, -1, len, k * n);
  }

  lemma HalfIndexAngle(t: Trig, len: nat, n: nat, k: nat)
    requires len > 0
    ensures Angle(t, -1, len, k * n) == ((2 * k) as real) * (((2 * n) as real) * t.pi / 2.0 / (len as real))
  {
    HalfIndices(t.pi, n as real, k as real, len as real);
    assert (2 * n) as real == 2.0 * (n as real) && (2 * k) as real == 2.0 * (k as real);
    assert (k * n) as real == (k as real) * (n as real);
    assert Turn(t, -1) == 2.0 * t.pi;
  }

  lemma HalfIndices(pi: real, n: real, k: real, l: real)
    requires l > 0.0
    ensures 2.0 * k * (2.0 * n * pi / 2.0 / l) == 2.0 * pi * (k * n) / l
  {
    assert 2.0 * n * pi / 2.0 == n * pi;
    assert 2.0 * k * (n * pi) == 2.0 * pi * (k * n);
  }

  /** _dft_1d: the slow transform in place leaves what the fast one leaves. */
  method DftInPlace(t: Trig, data: array<real>, base: nat, len: nat, isign: int)
    requires Lawful(t) && len > 0 && base + 2 * len <= data.Length && (isign == 1 || isign == -1)
    modifies data
    ensures forall k | 0 <= k < len :: Item(data, base, k) == Transform(t, isign, len, Values(old(data[..]), base), k)
    ensures Outside(old(data[..]), data[..], base, len)
  {
    ghost var x := Values(data[..], base);
    ghost var z: CVector := i => Zero;
    var res := Interleave([], len);
    assert forall i | 0 <= i < len :: z(i) == Padded([])(i);
    for n := 0 to len
      invariant Stores(res, 0, len, z) && data[..] == old(data[..])
      invariant forall i | 0 <= i < n :: z(i) == Transform(t, isign, len, x, i)
    {
      var re, im := SlowValue(t, data, base, len, isign, n, x);
      Store(res, 0, len, n, re, im, z);
      z := Put(z, n, Complex(re, im));
    }
    CopyBack(data, base, len, res, z);
  }

  method CopyBack(data: array<real>, base: nat, len: nat, res: array<real>, ghost z: CVector)
    requires base + 2 * len <= data.Length && data != res && Stores(res, 0, len, z)
    modifies data
    ensures forall k | 0 <= k < len :: Item(data, base, k) == z(k)
    ensures Outside(old(data[..]), data[..], base, len)
  {
    for i := 0 to len
      invariant Outside(old(data[..]), data[..], base, len) && Stores(res, 0, len, z)
      invariant forall k | 0 <= k < i :: Item(data, base, k) == z(k)
    {
      assert z(i) == Item(res, 0, i);
      data[base + 2 * i], data[base + 2 * i + 1] := res[2 * i], res[2 * i + 1];
    }
  }

  method SlowValue(t: Trig, data: array<real>, base: nat, len: nat, isign: int, n: nat, ghost x: CVector) returns (re: real, im: real)
    requires Lawful(t) && n < len && base + 2 * len <= data.Length && (isign == 1 || isign == -1)
    requires x == Values(data[..], base)
    ensures Complex(re, im) == Transform(t, isign, len, x, n)
  {
    re, im := 0.0, 0.0;
    var th := ((2 * n) as real) * t.pi / 2.0 / (len as real);
    for k := 0 to len
      invariant Complex(re, im) == Sum(k, Term(t, isign, len, x, n))
    {
      var c := t.cos(((2 * k) as real) * th);
      var s := (isign as real) * t.sin(((2 * k) as real) * th);
      SlowRoot(t, isign, len, n, k, ((2 * k) as real) * th);
      var dr, di := data[base + 2 * k], data[base + 2 * k + 1];
      SlowStep(t, isign, len, x, n, k, re, im, dr, di, c, s);
      re, im := re + (dr * c + di * s), im + (di * c - dr * s);
    }
  }

  lemma SlowStep(t: Trig, isign: int, len: nat, x: CVector, n: nat, k: nat, re: real, im: real, dr: real, di: real, c: real, s: real)
    requires k < len && Complex(re, im) == Sum(k, Term(t, isign, len, x, n))
    requires x(k) == Complex(dr, di) && Root(t, isign, len, k * n) == Complex(c, -s)
    ensures Complex(re + (dr * c + di * s), im + (di * c - dr * s)) == Sum(k + 1, Term(t, isign, len, x, n))
  {
    SlowProduct(dr, di, c, s);
  }

  lemma SlowProduct(x: real, y: real, c: real, s: real)
    ensures Mul(Complex(x, y), Complex(c, -s)) == Complex(x * c + y * s, y * c - x * s)
  {
  }
}
