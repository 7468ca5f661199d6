/** The in-place Fourier transforms over interleaved real and imaginary parts. */
module Fourier {
  import opened Complex
  import opened Roots
  import opened Dft
  import opened BitReversal
  import opened FftStages

  /** The n complex values stored from position `base` on. */
  ghost predicate Stores(data: array<real>, base: nat, n: nat, x: CVector)
    reads data
  {
    && base + 2 * n <= data.Length
    && forall p | 0 <= p < n :: x(p) == Item(data, base, p)
  }

  ghost function Item(data: array<real>, base: nat, p: nat): Complex
    requires base + 2 * p + 1 < data.Length
    reads data
  {
    Complex(data[base + 2 * p], data[base + 2 * p + 1])
  }

  /** The values an array section holds. */
  ghost function Values(s: seq<real>, base: nat): CVector {
    p => if 0 <= p && base + 2 * p + 1 < |s| then Complex(s[base + 2 * p], s[base + 2 * p + 1]) else Zero
  }

  /** Nothing outside the section was changed. */
  ghost predicate Outside(s: seq<real>, r: seq<real>, base: nat, n: nat) {
    |s| == |r| && base + 2 * n <= |s| && s[..base] == r[..base] && s[base + 2 * n..] == r[base + 2 * n..]
  }

  ghost function Put(x: CVector, p: int, v: Complex): CVector {
    k => if k == p then v else x(k)
  }

  ghost function Exchange(x: CVector, p: int, q: int): CVector {
    k => if k == p then x(q) else if k == q then x(p) else x(k)
  }

  method Store(data: array<real>, base: nat, n: nat, i: nat, re: real, im: real, ghost x: CVector)
    requires Stores(data, base, n, x) && i < n
    modifies data
    ensures Stores(data, base, n, Put(x, i, Complex(re, im)))
    ensures Outside(old(data[..]), data[..], base, n)
  {
    data[base + 2 * i] := re;
    data[base + 2 * i + 1] := im;
  }

  // --------------------------------------------------------- bit reversal

  ghost function Reversed(n: nat, x: CVector): CVector {
    p => if p >= 0 then x(Reverse(n, p)) else Zero
  }

  /** The values while the indices below q have been visited: an index and its
      reversal are exchanged at the visit of the smaller one. */
  ghost function Visited(n: nat, x: CVector, q: nat): CVector {
    p => if p >= 0 && (p < q || Reverse(n, p) < q) then Reversed(n, x)(p) else x(p)
  }

  method SwapItems(data: array<real>, base: nat, n: nat, i: nat, j: nat, ghost p: nat, ghost q: nat, ghost x: CVector)
    requires Stores(data, base, n, x) && p < n && q < n && i == 2 * p && j == 2 * q
    modifies data
    ensures Stores(data, base, n, Exchange(x, p, q))
    ensures Outside(old(data[..]), data[..], base, n)
  {
    assert x(p) == Item(data, base, p) && x(q) == Item(data, base, q);
    data[base + j], data[base + i] := data[base + i], data[base + j];
    data[base + j + 1], data[base + i + 1] := data[base + i + 1], data[base + j + 1];
  }

  lemma VisitedPair(n: nat, x: CVector, y: CVector, z: CVector, q: nat, p: nat, r: nat)
    requires r == Reverse(n, q) && q == Reverse(n, r) && (p == q || p == r)
    requires y(p) == Visited(n, x, q)(p) && y(q) == Visited(n, x, q)(q) && y(r) == Visited(n, x, q)(r)
    requires z == if r > q then Exchange(y, q, r) else y
    ensures z(p) == Visited(n, x, q + 1)(p)
  {
    assert Visited(n, x, q + 1)(p) == Reversed(n, x)(p) == x(Reverse(n, p));
    if r > q {
      assert y(q) == x(q) && y(r) == x(r);
    } else if r < q {
      assert y(p) == Reversed(n, x)(p);
    }
  }

  /** One visit: the exchange with the reversed index, if that is larger. */
  lemma VisitStep(n: nat, x: CVector, y: CVector, z: CVector, q: nat, p: nat)
    requires q < Pow2(n) && p < Pow2(n)
    requires forall p | 0 <= p < Pow2(n) :: y(p) == Visited(n, x, q)(p)
    requires z == if Reverse(n, q) > q then Exchange(y, q, Reverse(n, q)) else y
    ensures z(p) == Visited(n, x, q + 1)(p)
  {
    var r := Reverse(n, q);
    ReverseBound(n, q);
    ReverseInvolution(n, q);
    ReverseBound(n, p);
    ReverseInvolution(n, p);
    assert y(p) == Visited(n, x, q)(p) && y(r) == Visited(n, x, q)(r) && y(q) == Visited(n, x, q)(q);
    if p == q || p == r {
      VisitedPair(n, x, y, z, q, p, r);
    } else {
      assert Reverse(n, p) != q;
    }
  }

  method ReverseBits(data: array<real>, base: nat, len: nat, ghost bits: nat, ghost x: CVector)
    requires len == Pow2(bits) && Stores(data, base, len, x)
    modifies data
    ensures Stores(data, base, len, Reversed(bits, x))
    ensures Outside(old(data[..]), data[..], base, len)
  {
    var n, j, i := 2 * len, 0, 0;
    ghost var q, y := 0, x;
    ReverseZero(bits);
    while i < n
      invariant i == 2 * q && q <= len && Stores(data, base, len, y)
      invariant q < len ==> j == 2 * Reverse(bits, q)
      invariant forall p | 0 <= p < len :: y(p) == Visited(bits, x, q)(p)
      invariant Outside(old(data[..]), data[..], base, len)
    {
      ReverseBound(bits, q);
      ghost var z := y;
      if j > i {
        SwapItems(data, base, len, i, j, q, Reverse(bits, q), y);
        z := Exchange(y, q, Reverse(bits, q));
      }
      forall p | 0 <= p < len
        ensures z(p) == Visited(bits, x, q + 1)(p)
      {
        VisitStep(bits, x, y, z, q, p);
      }
      j := NextIndex(j, len);
      if q + 1 < len { CarryReverses(bits, q); }
      i, q, y := i + 2, q + 1, z;
    }
  }

  lemma {:induction false} ReverseZero(n: nat)
    ensures Reverse(n, 0) == 0
  {
    if n > 0 { ReverseZero(n - 1); }
  }

  /** The next swap index. */
  method NextIndex(k: nat, len: nat) returns (j: nat)
    ensures j == Carry(k, len)
  {
    j := k;
    var m := len;
    while m >= 2 && j >= m
      invariant Carry(j, m) == Carry(k, len)
    {
      j, m := j - m, m / 2;
    }
    j := j + m;
  }

  // ------------------------------------------------- Danielson-Lanczos stages

  method Butterfly(data: array<real>, base: nat, len: nat, i: nat, j: nat, wr: real, wi: real, ghost lo: nat, ghost hi: nat, ghost v: CVector)
    requires Stores(data, base, len, v) && lo < len && hi < len && lo != hi
    requires i == 2 * lo + 1 && j == 2 * hi + 1
    modifies data
    ensures Stores(data, base, len, Butterflied(v, lo, hi, Conj(Complex(wr, wi))))
    ensures Outside(old(data[..]), data[..], base, len)
  {
    assert v(lo) == Item(data, base, lo) && v(hi) == Item(data, base, hi);
    var tr := wr * data[base + j] - wi * data[base + j - 1];
    var ti := wr * data[base + j - 1] + wi * data[base + j];
    assert Complex(ti, tr) == Mul(Conj(Complex(wr, wi)), v(hi));
    Apart(data, base, len, i, j, tr, ti, lo, hi, v);
  }

  /** The sum at lo and the difference at hi. */
  ghost function Parted(v: CVector, lo: nat, hi: nat, d: Complex): CVector {
    p => if p == lo then Add(v(lo), d) else if p == hi then Sub(v(lo), d) else v(p)
  }

  /** Stores the difference at hi and the sum at lo. */
  method Apart(data: array<real>, base: nat, len: nat, i: nat, j: nat, tr: real, ti: real, ghost lo: nat, ghost hi: nat, ghost v: CVector)
    requires Stores(data, base, len, v) && lo < len && hi < len && lo != hi
    requires i == 2 * lo + 1 && j == 2 * hi + 1
    modifies data
    ensures Stores(data, base, len, Parted(v, lo, hi, Complex(ti, tr)))
    ensures Outside(old(data[..]), data[..], base, len)
  {
    assert v(lo) == Item(data, base, lo);
    data[base + j] := data[base + i] - tr;
    data[base + j - 1] := data[base + i - 1] - ti;
    data[base + i] := data[base + i] + tr;
    data[base + i - 1] := data[base + i - 1] + ti;
    assert Item(data, base, lo) == Add(v(lo), Complex(ti, tr)) && Item(data, base, hi) == Sub(v(lo), Complex(ti, tr));
    forall p | 0 <= p < len && p != lo && p != hi
      ensures Item(data, base, p) == v(p)
    {
      assert v(p) == old(Item(data, base, p));
    }
  }

  /** The butterflies at offset k = (m-1)/2 of all blocks. */
  method JoinOffset(data: array<real>, base: nat, len: nat, m: nat, mmax: nat, wr: real, wi: real,
                    ghost h: nat, ghost s: nat, ghost k: nat, ghost y: CVector, ghost v: CVector, ghost w: CVector)
    returns (ghost u: CVector)
    requires h > 0 && k < h && m == 2 * k + 1 && mmax == 2 * h && len == s * (2 * h)
    requires Stores(data, base, len, v) && PartlyJoined(h, s, y, v, w, k, 0) && w(k) == Conj(Complex(wr, wi))
    modifies data
    ensures Stores(data, base, len, u) && PartlyJoined(h, s, y, u, w, k + 1, 0)
    ensures Outside(old(data[..]), data[..], base, len)
  {
    var n, istep := 2 * len, 2 * mmax;
    var i := m;
    ghost var b := 0;
    u := v;
    while i <= n
      invariant b <= s && i == 2 * Place(2 * h, b, k) + 1
      invariant Stores(data, base, len, u) && PartlyJoined(h, s, y, u, w, k, b)
      invariant Outside(old(data[..]), data[..], base, len)
      decreases n + istep - i
    {
      ghost var lo := Place(2 * h, b, k);
      BlockInRange(h, s, k, b);
      var j := i + mmax;
      TreatPair(h, s, y, u, w, k, b);
      Butterfly(data, base, len, i, j, wr, wi, lo, lo + h, u);
      u := Butterflied(u, lo, lo + h, w(k));
      i, b := i + istep, b + 1;
    }
    BlockPastEnd(h, s, k, b);
    NextOffset(h, s, y, u, w, k);
  }

  lemma BlockInRange(h: nat, s: nat, k: nat, b: nat)
    requires k < h && 2 * Place(2 * h, b, k) + 1 <= 2 * (s * (2 * h))
    ensures b < s && Place(2 * h, b, k) + h < s * (2 * h)
  {
    PlaceHalves(h, b, k);
    assert b >= s ==> b * (2 * h) >= s * (2 * h);
    PlaceBound(2 * h, b, k + h, s);
  }

  lemma BlockPastEnd(h: nat, s: nat, k: nat, b: nat)
    requires k < h && b <= s && 2 * Place(2 * h, b, k) + 1 > 2 * (s * (2 * h))
    ensures b == s
  {
    if b < s { PlaceBound(2 * h, b, k, s); }
  }

  /** One stage: blocks of mmax / 2 values are joined. */
  method JoinStage(t: Trig, data: array<real>, base: nat, len: nat, isign: int, mmax: nat,
                   ghost h: nat, ghost s: nat, ghost y: CVector)
    returns (ghost u: CVector)
    requires Lawful(t) && h > 0 && mmax == 2 * h && len == s * (2 * h) && Stores(data, base, len, y)
    modifies data
    ensures Stores(data, base, len, u) && PartlyJoined(h, s, y, u, Twiddles(t, isign, h), h, 0)
    ensures Outside(old(data[..]), data[..], base, len)
  {
    var th := (isign as real) * (2.0 * t.pi / (mmax as real));
    var wt := t.sin(0.5 * th);
    var wpr := -2.0 * wt * wt;
    var wpi := t.sin(th);
    HalfAngle(t, th);
    TurnStep(t, isign, h, th);
    u := JoinOffsets(t, data, base, len, isign, mmax, wpr, wpi, h, s, y);
  }

  /** The offsets of a stage in turn; the twiddle factor is advanced by the
      recurrence on wr and wi. */
  method JoinOffsets(t: Trig, data: array<real>, base: nat, len: nat, isign: int, mmax: nat, wpr: real, wpi: real,
                     ghost h: nat, ghost s: nat, ghost y: CVector)
    returns (ghost u: CVector)
    requires Lawful(t) && h > 0 && mmax == 2 * h && len == s * (2 * h) && Stores(data, base, len, y)
    requires Root(t, -isign, 2 * h, 1) == Complex(1.0 + wpr, wpi)
    modifies data
    ensures Stores(data, base, len, u) && PartlyJoined(h, s, y, u, Twiddles(t, isign, h), h, 0)
    ensures Outside(old(data[..]), data[..], base, len)
  {
    hide PartlyJoined, Lawful;
    var wr, wi := 1.0, 0.0;
    ghost var w := Twiddles(t, isign, h);
    ghost var k := 0;
    var m := 1;
    u := y;
    RootZero(t, -isign, 2 * h);
    StartStage(h, s, y, w);
    while m < mmax
      invariant m == 2 * k + 1 && k <= h
      invariant Complex(wr, wi) == Root(t, -isign, 2 * h, k)
      invariant Stores(data, base, len, u) && PartlyJoined(h, s, y, u, w, k, 0)
      invariant Outside(old(data[..]), data[..], base, len)
    {
      RootConj(t, -isign, 2 * h, k);
      u := JoinOffset(data, base, len, m, mmax, wr, wi, h, s, k, y, u, w);
      NextTwiddle(t, isign, h, k, wr, wi, wpr, wpi);
      var wt := wr;
      wr := wr * wpr - wi * wpi + wr;
      wi := wi * wpr + wt * wpi + wi;
      m, k := m + 2, k + 1;
    }
  }

  lemma StartStage(h: nat, s: nat, y: CVector, w: CVector)
    ensures PartlyJoined(h, s, y, y, w, 0, 0)
  {
  }

  /** The recurrence multiplies by the root whose angle is th. */
  lemma NextTwiddle(t: Trig, isign: int, h: nat, k: nat, wr: real, wi: real, wpr: real, wpi: real)
    requires Lawful(t) && h > 0 && Root(t, -isign, 2 * h, 1) == Complex(1.0 + wpr, wpi)
    requires Complex(wr, wi) == Root(t, -isign, 2 * h, k)
    ensures Complex(wr * wpr - wi * wpi + wr, wi * wpr + wr * wpi + wi) == Root(t, -isign, 2 * h, k + 1)
  {
    RootSum(t, -isign, 2 * h, k, 1);
    Recurrence(wr, wi, wpr, wpi);
  }

  lemma Recurrence(wr: real, wi: real, p: real, s: real)
    ensures Complex(wr * p - wi * s + wr, wi * p + wr * s + wi) == Mul(Complex(wr, wi), Complex(1.0 + p, s))
  {
  }

  /** Half an angle's sine gives the increment of the cosine. */
  lemma TurnStep(t: Trig, isign: int, h: nat, th: real)
    requires h > 0 && th == (isign as real) * (2.0 * t.pi / ((2 * h) as real))
    ensures Root(t, -isign, 2 * h, 1) == Complex(t.cos(th), t.sin(th))
  {
    assert (-isign) as real == -(isign as real);
    assert Turn(t, -isign) == (isign as real) * (2.0 * t.pi);
    assert Angle(t, -isign, 2 * h, 1) == th;
  }

  ghost function Reversal(n: nat): int -> int {
    q => if q >= 0 then Reverse(n, q) else 0
  }

  /** Before the stage with blocks of 2^e values. */
  ghost predicate StageReached(t: Trig, isign: int, bits: nat, x: CVector, y: CVector, e: nat)
  {
    e <= bits && Blocks(t, isign, Pow2(e), Pow2(bits - e), x, y, Reversal(bits - e))
  }

  lemma FirstStage(t: Trig, isign: int, bits: nat, x: CVector)
    requires Lawful(t)
    ensures StageReached(t, isign, bits, x, Reversed(bits, x), 0)
  {
    forall q, k | 0 <= q < Pow2(bits) && 0 <= k < 1
      ensures Reversed(bits, x)(Place(1, q, k)) == Transform(t, isign, 1, Every(x, Pow2(bits), Reversal(bits)(q)), k)
    {
      SingleValue(t, isign, Every(x, Pow2(bits), Reversal(bits)(q)));
    }
  }

  lemma SingleValue(t: Trig, isign: int, z: CVector)
    requires Lawful(t)
    ensures Transform(t, isign, 1, z, 0) == z(0)
  {
    RootZero(t, isign, 1);
    SumSingle(1, 0, Term(t, isign, 1, z, 0));
    MulOne(z(0));
  }

  lemma NextStage(t: Trig, isign: int, bits: nat, x: CVector, y: CVector, z: CVector, e: nat)
    requires Lawful(t) && (isign == 1 || isign == -1) && e < bits && StageReached(t, isign, bits, x, y, e)
    requires PartlyJoined(Pow2(e), Pow2(bits - e - 1), y, z, Twiddles(t, isign, Pow2(e)), Pow2(e), 0)
    ensures StageReached(t, isign, bits, x, z, e + 1)
  {
    var fine, rev := Reversal(bits - e), Reversal(bits - e - 1);
    JoinBlocks(t, isign, Pow2(e), Pow2(bits - e - 1), x, y, z, rev, fine);
  }

  lemma LastStage(t: Trig, isign: int, bits: nat, x: CVector, y: CVector, k: nat)
    requires StageReached(t, isign, bits, x, y, bits) && k < Pow2(bits)
    ensures y(k) == Transform(t, isign, Pow2(bits), x, k)
  {
    assert Place(Pow2(bits), 0, k) == k;
    TransformCongruence(t, isign, Pow2(bits), Every(x, 1, Reversal(0)(0)), x, k);
  }

  lemma {:induction false} Pow2Product(bits: nat, e: nat)
    requires e <= bits
    ensures Pow2(bits - e) * Pow2(e) == Pow2(bits)
  {
    if e > 0 {
      Pow2Product(bits - 1, e - 1);
      assert Pow2(bits - e) * Pow2(e) == 2 * (Pow2(bits - e) * Pow2(e - 1));
    }
  }

  /** The fast Fourier transform leaves, in place, the values of the defining sum. */
  method Fft1d(t: Trig, data: array<real>, base: nat, len: nat, isign: int, ghost bits: nat)
    requires Lawful(t) && len == Pow2(bits) && base + 2 * len <= data.Length && (isign == 1 || isign == -1)
    modifies data
    ensures forall k | 0 <= k < len :: Item(data, base, k) == Transform(t, isign, len, Values(old(data[..]), base), k)
    ensures Outside(old(data[..]), data[..], base, len)
  {
    ghost var x := Values(data[..], base);
    ReverseBits(data, base, len, bits, x);
    FirstStage(t, isign, bits, x);
    ghost var y, e := Reversed(bits, x), 0;
    var n, mmax := 2 * len, 2;
    while n > mmax
      invariant e <= bits && mmax == 2 * Pow2(e)
      invariant Stores(data, base, len, y) && StageReached(t, isign, bits, x, y, e)
      invariant Outside(old(data[..]), data[..], base, len)
      decreases bits - e
    {
      StageLeft(bits, e);
      var istep := 2 * mmax;
      ghost var u := JoinStage(t, data, base, len, isign, mmax, Pow2(e), Pow2(bits - e - 1), y);
      NextStage(t, isign, bits, x, y, u, e);
      mmax, e, y := istep, e + 1, u;
    }
    StagesDone(bits, e);
    forall k | 0 <= k < len
      ensures Item(data, base, k) == Transform(t, isign, len, x, k)
    {
      LastStage(t, isign, bits, x, y, k);
      assert y(k) == Item(data, base, k);
    }
  }

  lemma StageLeft(bits: nat, e: nat)
    requires e <= bits && Pow2(bits) > Pow2(e)
    ensures e < bits && Pow2(bits) == Pow2(bits - e - 1) * (2 * Pow2(e))
  {
    if e < bits { Pow2Product(bits, e + 1); }
  }

  lemma StagesDone(bits: nat, e: nat)
    requires e <= bits && Pow2(bits) <= Pow2(e)
    ensures e == bits
  {
    Pow2Grows(e, bits);
  }
}
