/** The harmonic balance solver's matrix transform: the fast form, which fills
    each node block with a circulant, and the slow form it replaces, which
    transforms every column and then every row back.  One excitation frequency. */
module MatrixFft {
  import opened Arithmetic
  import opened Complex
  import opened Roots
  import opened Dft
  import opened BitReversal
  import opened FftStages
  import opened Fourier
  import opened Inversion
  import opened Transforms

  function Shrunk(n: nat, c: Complex): Complex
    requires n > 0
  {
    Complex(c.re / (n as real), c.im / (n as real))
  }

  /** The forward transform of vectors is divided by the number of frequencies,
      the inverse is not. */
  ghost function Value(t: Trig, isign: int, n: nat, x: CVector, k: int): Complex
    requires n > 0
  {
    if isign > 0 then Shrunk(n, Transform(t, isign, n, x, k)) else Transform(t, isign, n, x, k)
  }

  lemma ThereUnscaled(x: CVector, n: nat, k: nat)
    requires n > 0
    ensures Shrunk(n, Mul(x(k), OfNat(n))) == x(k)
  {
    Unshrunk(x(k).re, n as real);
    Unshrunk(x(k).im, n as real);
  }

  lemma Unshrunk(x: real, y: real)
    requires y > 0.0
    ensures x * y / y == x
  {
  }

  lemma {:induction false} ShrunkSum(n: nat, m: nat, f: CVector, g: CVector)
    requires m > 0 && forall k | 0 <= k < n :: g(k) == Shrunk(m, f(k))
    ensures Sum(n, g) == Shrunk(m, Sum(n, f))
  {
    if n > 0 {
      ShrunkSum(n - 1, m, f, g);
      ShrunkAdd(m, Sum(n - 1, f), f(n - 1));
    }
  }

  lemma ShrunkAdd(m: nat, a: Complex, b: Complex)
    requires m > 0
    ensures Shrunk(m, Add(a, b)) == Add(Shrunk(m, a), Shrunk(m, b))
  {
  }

  lemma ShrunkTimes(m: nat, a: Complex, w: Complex)
    requires m > 0
    ensures Mul(Shrunk(m, a), w) == Shrunk(m, Mul(a, w))
  {
    var y := m as real;
    ProductOfQuotients(a.re, a.im, w.re, w.im, y);
    ProductOfQuotients(a.re, a.im, w.im, -w.re, y);
    assert a.im * -w.re == -(a.im * w.re) && (a.im / y) * -w.re == -((a.im / y) * w.re);
  }

  lemma ProductOfQuotients(a: real, b: real, u: real, v: real, y: real)
    requires y > 0.0
    ensures (a / y) * u - (b / y) * v == (a * u - b * v) / y
  {
    ScaledProducts(a, u, y);
    ScaledProducts(b, v, y);
    SplitQuotient(a * u, b * v, y);
  }

  lemma ScaledProducts(x: real, w: real, y: real)
    requires y > 0.0
    ensures x / y * w == x * w / y
  {
    Reciprocal(x, y);
    Reciprocal(x * w, y);
    var g := 1.0 / y;
    assert x * g * w == x * w * g;
  }

  lemma SplitQuotient(x: real, z: real, y: real)
    requires y > 0.0
    ensures (x - z) / y == x / y - z / y
  {
  }

  /** Forth, scaled, and back is nothing: the inverse undoes the transform of a node. */
  lemma NodeThereAndBack(t: Trig, n: nat, x: CVector, k: nat)
    requires Lawful(t) && k < n
    ensures Value(t, -1, n, f => Value(t, 1, n, x, f), k) == x(k)
  {
    var y, s := f => Value(t, 1, n, x, f), Spectrum(t, 1, n, x);
    forall j | 0 <= j < n
      ensures Term(t, -1, n, y, k)(j) == Shrunk(n, Term(t, -1, n, s, k)(j))
    {
      ShrunkTimes(n, Transform(t, 1, n, x, j), Root(t, -1, n, k * j));
    }
    ShrunkSum(n, n, Term(t, -1, n, s, k), Term(t, -1, n, y, k));
    InverseTransform(t, 1, n, x, k);
    ThereUnscaled(x, n, k);
  }

  /** The values of node i. */
  ghost function Node(x: CVector, n: nat, i: nat): CVector {
    f => if f >= 0 then x(Place(n, i, f)) else Zero
  }

  lemma ValueCongruence(t: Trig, isign: int, n: nat, x: CVector, y: CVector, k: int)
    requires n > 0 && forall f | 0 <= f < n :: x(f) == y(f)
    ensures Value(t, isign, n, x, k) == Value(t, isign, n, y, k)
  {
    TransformCongruence(t, isign, n, x, y, k);
  }

  // ------------------------------------------------------------ VectorFFT

  /** Nodes before i are transformed, the others are not. */
  ghost predicate NodesDone(t: Trig, isign: int, n: nat, nodes: nat, x: CVector, y: CVector, i: nat)
    requires n > 0
  {
    forall q, k | 0 <= q < nodes && 0 <= k < n ::
      y(Place(n, q, k)) == if q < i then Value(t, isign, n, Node(x, n, q), k) else x(Place(n, q, k))
  }

  /** One node's section is transformed and scaled. */
  method NodeFft(t: Trig, d: array<real>, k: nat, n: nat, isign: int, ghost bits: nat, ghost z: CVector)
    requires Lawful(t) && n == Pow2(bits) && Stores(d, k, n, z) && (isign == 1 || isign == -1)
    modifies d
    ensures Outside(old(d[..]), d[..], k, n)
    ensures Stores(d, k, n, f => Value(t, isign, n, z, f))
  {
    ghost var y := Values(d[..], k);
    Fft1d(t, d, k, n, isign, bits);
    ghost var u := Spectrum(t, isign, n, z);
    forall f | 0 <= f < n
      ensures u(f) == Item(d, k, f)
    {
      TransformCongruence(t, isign, n, y, z, f);
    }
    if isign > 0 {
      ScaleNode(d, k, n, u);
    }
  }

  ghost function PartlyShrunk(n: nat, u: CVector, i: nat): CVector
    requires n > 0
  {
    f => if f < i then Shrunk(n, u(f)) else u(f)
  }

  method ScaleNode(d: array<real>, k: nat, n: nat, ghost u: CVector)
    requires n > 0 && Stores(d, k, n, u)
    modifies d
    ensures Outside(old(d[..]), d[..], k, n)
    ensures Stores(d, k, n, f => Shrunk(n, u(f)))
  {
    assert forall f | 0 <= f < n :: PartlyShrunk(n, u, 0)(f) == u(f);
    for r := 0 to n
      invariant Outside(old(d[..]), d[..], k, n) && Stores(d, k, n, PartlyShrunk(n, u, r))
    {
      assert PartlyShrunk(n, u, r)(r) == Item(d, k, r);
      Store(d, k, n, r, d[k + 2 * r] / (n as real), d[k + 2 * r + 1] / (n as real), PartlyShrunk(n, u, r));
      assert forall f | 0 <= f < n ::
        PartlyShrunk(n, u, r + 1)(f) == Put(PartlyShrunk(n, u, r), r, Shrunk(n, u(r)))(f);
    }
    assert forall f | 0 <= f < n :: PartlyShrunk(n, u, n)(f) == Shrunk(n, u(f));
  }

  lemma OutsideIndex(s: seq<real>, r: seq<real>, base: nat, n: nat)
    requires Outside(s, r, base, n)
    ensures forall i | 0 <= i < |s| && (i < base || i >= base + 2 * n) :: s[i] == r[i]
  {
    forall i | 0 <= i < |s| && (i < base || i >= base + 2 * n)
      ensures s[i] == r[i]
    {
      if i < base {
        assert s[..base][i] == r[..base][i];
      } else {
        assert s[base + 2 * n..][i - (base + 2 * n)] == r[base + 2 * n..][i - (base + 2 * n)];
      }
    }
  }

  /** The values with those of node i replaced. */
  ghost function Patched(y: CVector, n: nat, i: nat, z: CVector): CVector {
    p => if i * n <= p < i * n + n then z(p - i * n) else y(p)
  }

  lemma NodeBounds(n: nat, nodes: nat, i: nat)
    requires i < nodes
    ensures i * n + n <= nodes * n
  {
    assert (i + 1) * n <= nodes * n;
  }

  lemma SectionOfNode(d: array<real>, nodes: nat, n: nat, y: CVector, i: nat)
    requires i < nodes && Stores(d, 0, nodes * n, y)
    ensures Stores(d, 2 * (i * n), n, Node(y, n, i))
  {
    NodeBounds(n, nodes, i);
    forall f | 0 <= f < n
      ensures Node(y, n, i)(f) == Item(d, 2 * (i * n), f)
    {
      assert Place(n, i, f) == i * n + f;
      assert y(i * n + f) == Item(d, 0, i * n + f);
    }
  }

  lemma StoredItems(d: array<real>, n: nat, y: CVector)
    requires Stores(d, 0, n, y)
    ensures forall p | 0 <= p < n :: y(p) == Complex(d[..][2 * p], d[..][2 * p + 1])
  {
    assert forall p | 0 <= p < n :: y(p) == Item(d, 0, p);
  }

  lemma WholeOfSections(s: seq<real>, d: array<real>, nodes: nat, n: nat, y: CVector, v: CVector, i: nat)
    requires i < nodes && |s| == d.Length >= 2 * (nodes * n) && i * n + n <= nodes * n
    requires forall p | 0 <= p < nodes * n :: y(p) == Complex(s[2 * p], s[2 * p + 1])
    requires Outside(s, d[..], 2 * (i * n), n) && Stores(d, 2 * (i * n), n, v)
    ensures Stores(d, 0, nodes * n, Patched(y, n, i, v))
  {
    OutsideIndex(s, d[..], 2 * (i * n), n);
    forall p | 0 <= p < nodes * n
      ensures Patched(y, n, i, v)(p) == Item(d, 0, p)
    {
      if i * n <= p < i * n + n {
        assert v(p - i * n) == Item(d, 2 * (i * n), p - i * n);
      } else {
        assert s[2 * p] == d[..][2 * p] && s[2 * p + 1] == d[..][2 * p + 1];
      }
    }
  }

  /** The section of node i, transformed in place. */
  method NextNode(t: Trig, d: array<real>, nodes: nat, n: nat, isign: int, ghost bits: nat, ghost y: CVector, ghost i: nat, k: nat)
    requires Lawful(t) && n == Pow2(bits) && i < nodes && k == 2 * (i * n) && Stores(d, 0, nodes * n, y) && (isign == 1 || isign == -1)
    modifies d
    ensures Stores(d, 0, nodes * n, Patched(y, n, i, f => Value(t, isign, n, Node(y, n, i), f)))
  {
    NodeBounds(n, nodes, i);
    ghost var z, s := Node(y, n, i), d[..];
    SectionOfNode(d, nodes, n, y, i);
    StoredItems(d, nodes * n, y);
    NodeFft(t, d, k, n, isign, bits, z);
    WholeOfSections(s, d, nodes, n, y, f => Value(t, isign, n, Node(y, n, i), f), i);
  }

  lemma NodePatched(t: Trig, isign: int, n: nat, nodes: nat, x: CVector, y: CVector, i: nat)
    requires n > 0 && i < nodes && NodesDone(t, isign, n, nodes, x, y, i)
    ensures NodesDone(t, isign, n, nodes, x, Patched(y, n, i, f => Value(t, isign, n, Node(y, n, i), f)), i + 1)
  {
    var u := Patched(y, n, i, f => Value(t, isign, n, Node(y, n, i), f));
    forall q, k | 0 <= q < nodes && 0 <= k < n
      ensures u(Place(n, q, k)) == if q < i + 1 then Value(t, isign, n, Node(x, n, q), k) else x(Place(n, q, k))
    {
      assert y(Place(n, q, k)) == if q < i then Value(t, isign, n, Node(x, n, q), k) else x(Place(n, q, k));
      if q == i {
        assert forall f | 0 <= f < n :: y(Place(n, i, f)) == x(Place(n, i, f));
        ValueCongruence(t, isign, n, Node(y, n, i), Node(x, n, i), k);
      } else if i * n <= Place(n, q, k) < i * n + n {
        PlaceInjective(n, q, k, i, Place(n, q, k) - i * n);
      }
    }
  }

  /** For each node a single transform. */
  method VectorFft(t: Trig, d: array<real>, nodes: nat, n: nat, isign: int, ghost bits: nat, ghost x: CVector)
    returns (ghost y: CVector)
    requires Lawful(t) && n == Pow2(bits) && Stores(d, 0, nodes * n, x) && (isign == 1 || isign == -1)
    modifies d
    ensures Stores(d, 0, nodes * n, y) && NodesDone(t, isign, n, nodes, x, y, nodes)
  {
    y := x;
    var k := 0;
    for i := 0 to nodes
      invariant k == 2 * (i * n) && Stores(d, 0, nodes * n, y) && NodesDone(t, isign, n, nodes, x, y, i)
    {
      NextNode(t, d, nodes, n, isign, bits, y, i, k);
      NodePatched(t, isign, n, nodes, x, y, i);
      y := Patched(y, n, i, f => Value(t, isign, n, Node(y, n, i), f));
      k := k + 2 * n;
    }
  }

  // ------------------------------------------------------------ the matrix

  ghost predicate Holds(a: array2<Complex>, m: CMatrix)
    reads a
  {
    forall i, j | 0 <= i < a.Length0 && 0 <= j < a.Length1 :: a[i, j] == m(i, j)
  }

  /** The diagonal of the block of nodes r and c. */
  ghost function Diagonal(m: CMatrix, n: nat, r: nat, c: nat): CVector {
    f => if f >= 0 then m(Place(n, r, f), Place(n, c, f)) else Zero
  }

  /** The value both forms put at frequencies fr and fc of a block: value fr - fc
      of the transform of its diagonal. */
  ghost function Circulant(t: Trig, n: nat, m: CMatrix, r: nat, c: nat, fr: nat, fc: nat): Complex
    requires n > 0
  {
    Value(t, 1, n, Diagonal(m, n, r, c), fr - fc)
  }

  /** Block (r, c) of w is the transformed block of m. */
  ghost predicate BlockDone(t: Trig, n: nat, m: CMatrix, w: CMatrix, r: nat, c: nat)
    requires n > 0
  {
    forall fr, fc | 0 <= fr < n && 0 <= fc < n ::
      w(Place(n, r, fr), Place(n, c, fc)) == Circulant(t, n, m, r, c, fr, fc)
  }

  ghost predicate BlockKept(n: nat, m: CMatrix, w: CMatrix, r: nat, c: nat) {
    forall fr, fc | 0 <= fr < n && 0 <= fc < n ::
      w(Place(n, r, fr), Place(n, c, fc)) == m(Place(n, r, fr), Place(n, c, fc))
  }

  /** What both forms compute, block by block. */
  ghost predicate MatrixTransformed(t: Trig, nodes: nat, n: nat, m: CMatrix, w: CMatrix)
    requires n > 0
  {
    forall r, c | 0 <= r < nodes && 0 <= c < nodes :: BlockDone(t, n, m, w, r, c)
  }

  // ------------------------------------------------------------ fast form

  /** The index of the spectrum that goes to frequencies fr and fc. */
  ghost function Wrapped(n: nat, fr: int, fc: int): int {
    if fr < fc then n + fr - fc else fr - fc
  }

  /** The matrix while the block at (nr, nc) is filled: columns before fc, and
      column fc above row fr. */
  ghost function Filled(w: CMatrix, v: CVector, n: nat, nr: nat, nc: nat, fc: nat, fr: nat): CMatrix {
    (i, j) => if nr <= i < nr + n && nc <= j < nc + n && (j - nc < fc || (j - nc == fc && i - nr < fr))
              then v(Wrapped(n, i - nr, j - nc)) else w(i, j)
  }

  method FillEntry(M: array2<Complex>, z: Complex, n: nat, nr: nat, nc: nat, fc: nat, fr: nat, ghost w: CMatrix, ghost v: CVector)
    requires fr < n && fc < n && nr + n <= M.Length0 && nc + n <= M.Length1
    requires Holds(M, Filled(w, v, n, nr, nc, fc, fr)) && z == v(Wrapped(n, fr, fc))
    modifies M
    ensures Holds(M, Filled(w, v, n, nr, nc, fc, fr + 1))
  {
    M[nr + fr, nc + fc] := z;
  }

  /** Column fc of a block. */
  method FillColumn(M: array2<Complex>, d: array<real>, n: nat, nr: nat, nc: nat, fc: nat, ghost w: CMatrix, ghost v: CVector)
    requires fc < n && nr + n <= M.Length0 && nc + n <= M.Length1 && Stores(d, 0, n, v)
    requires Holds(M, Filled(w, v, n, nr, nc, fc, 0))
    modifies M
    ensures Holds(M, Filled(w, v, n, nr, nc, fc, n))
  {
    var fi := n - 1 - fc;
    for fr := 0 to n
      invariant 0 <= fi < n && fi == (if fr <= fc then n - 1 + fr - fc else fr - 1 - fc)
      invariant Holds(M, Filled(w, v, n, nr, nc, fc, fr)) && Stores(d, 0, n, v)
    {
      fi := fi + 1;
      if fi >= n { fi := 0; }
      assert v(fi) == Item(d, 0, fi);
      FillEntry(M, Complex(d[2 * fi], d[2 * fi + 1]), n, nr, nc, fc, fr, w, v);
    }
  }

  /** Fills a block with the circulant of the spectrum in d. */
  method FillBlock(M: array2<Complex>, d: array<real>, n: nat, nr: nat, nc: nat, ghost w: CMatrix, ghost v: CVector)
    requires nr + n <= M.Length0 && nc + n <= M.Length1 && Holds(M, w) && Stores(d, 0, n, v)
    modifies M
    ensures Holds(M, Filled(w, v, n, nr, nc, n, 0))
  {
    for fc := 0 to n
      invariant Holds(M, Filled(w, v, n, nr, nc, fc, 0)) && Stores(d, 0, n, v)
    {
      FillColumn(M, d, n, nr, nc, fc, w, v);
    }
  }

  lemma FilledBlock(t: Trig, n: nat, m: CMatrix, w: CMatrix, v: CVector, r: nat, c: nat)
    requires Lawful(t) && n > 0 && BlockKept(n, m, w, r, c)
    requires forall f | 0 <= f < n :: v(f) == Value(t, 1, n, Diagonal(w, n, r, c), f)
    ensures BlockDone(t, n, m, Filled(w, v, n, r * n, c * n, n, 0), r, c)
  {
    forall fr, fc | 0 <= fr < n && 0 <= fc < n
      ensures Filled(w, v, n, r * n, c * n, n, 0)(Place(n, r, fr), Place(n, c, fc)) == Circulant(t, n, m, r, c, fr, fc)
    {
      FilledEntry(t, n, m, w, v, r, c, fr, fc);
    }
  }

  lemma FilledEntry(t: Trig, n: nat, m: CMatrix, w: CMatrix, v: CVector, r: nat, c: nat, fr: nat, fc: nat)
    requires Lawful(t) && fr < n && fc < n && BlockKept(n, m, w, r, c)
    requires forall f | 0 <= f < n :: v(f) == Value(t, 1, n, Diagonal(w, n, r, c), f)
    ensures Filled(w, v, n, r * n, c * n, n, 0)(Place(n, r, fr), Place(n, c, fc)) == Circulant(t, n, m, r, c, fr, fc)
  {
    var x, g := Diagonal(m, n, r, c), Wrapped(n, fr, fc);
    DiagonalKept(n, m, w, r, c);
    hide Value, Diagonal, Lawful, BlockKept, Filled, Place;
    ValueCongruence(t, 1, n, Diagonal(w, n, r, c), x, g);
    Periodic(t, 1, n, x, fr - fc);
    assert Value(t, 1, n, x, g) == Circulant(t, n, m, r, c, fr, fc);
    InFilled(w, v, n, r, c, fr, fc);
  }

  lemma InFilled(w: CMatrix, v: CVector, n: nat, r: nat, c: nat, fr: nat, fc: nat)
    requires fr < n && fc < n
    ensures Filled(w, v, n, r * n, c * n, n, 0)(Place(n, r, fr), Place(n, c, fc)) == v(Wrapped(n, fr, fc))
  {
    var nr, nc := r * n, c * n;
    assert Filled(w, v, n, nr, nc, n, 0)(nr + fr, nc + fc) == v(Wrapped(n, fr, fc));
  }

  lemma DiagonalKept(n: nat, m: CMatrix, w: CMatrix, r: nat, c: nat)
    requires BlockKept(n, m, w, r, c)
    ensures forall f | 0 <= f < n :: Diagonal(w, n, r, c)(f) == Diagonal(m, n, r, c)(f)
  {
  }

  lemma OtherBlock(n: nat, w: CMatrix, v: CVector, r: nat, c: nat, q: nat, k: nat)
    requires (q != r || k != c) && n > 0
    ensures BlockKept(n, w, Filled(w, v, n, r * n, c * n, n, 0), q, k)
  {
    forall fr, fc | 0 <= fr < n && 0 <= fc < n
      ensures Filled(w, v, n, r * n, c * n, n, 0)(Place(n, q, fr), Place(n, k, fc)) == w(Place(n, q, fr), Place(n, k, fc))
    {
      if r * n <= Place(n, q, fr) < r * n + n && c * n <= Place(n, k, fc) < c * n + n {
        PlaceInjective(n, q, fr, r, Place(n, q, fr) - r * n);
        PlaceInjective(n, k, fc, c, Place(n, k, fc) - c * n);
      }
    }
  }

  /** The state of block (q, k) when block columns before c are treated, and in
      block column c the blocks above r. */
  ghost predicate BlockState(t: Trig, n: nat, m: CMatrix, w: CMatrix, c: nat, r: nat, q: nat, k: nat)
    requires n > 0
  {
    if k < c || (k == c && q < r) then BlockDone(t, n, m, w, q, k) else BlockKept(n, m, w, q, k)
  }

  ghost predicate Treated(t: Trig, nodes: nat, n: nat, m: CMatrix, w: CMatrix, c: nat, r: nat)
    requires n > 0
  {
    forall q, k | 0 <= q < nodes && 0 <= k < nodes :: BlockState(t, n, m, w, c, r, q, k)
  }

  lemma TreatBlock(t: Trig, nodes: nat, n: nat, m: CMatrix, w: CMatrix, v: CVector, r: nat, c: nat)
    requires Lawful(t) && n > 0 && r < nodes && c < nodes && Treated(t, nodes, n, m, w, c, r)
    requires forall f | 0 <= f < n :: v(f) == Value(t, 1, n, Diagonal(w, n, r, c), f)
    ensures Treated(t, nodes, n, m, Filled(w, v, n, r * n, c * n, n, 0), c, r + 1)
  {
    var u, next := Filled(w, v, n, r * n, c * n, n, 0), r + 1;
    forall q, k | 0 <= q < nodes && 0 <= k < nodes
      ensures BlockState(t, n, m, u, c, next, q, k)
    {
      assert BlockState(t, n, m, w, c, r, q, k);
      if q == r && k == c {
        FilledBlock(t, n, m, w, v, r, c);
      } else {
        OtherBlock(n, w, v, r, c, q, k);
        KeepState(t, n, m, w, u, c, r, q, k);
      }
    }
  }

  lemma KeepState(t: Trig, n: nat, m: CMatrix, w: CMatrix, u: CMatrix, c: nat, r: nat, q: nat, k: nat)
    requires n > 0 && BlockState(t, n, m, w, c, r, q, k) && BlockKept(n, w, u, q, k)
    ensures BlockState(t, n, m, u, c, r, q, k)
  {
    var done := k < c || (k == c && q < r);
    forall fr, fc | 0 <= fr < n && 0 <= fc < n
      ensures u(Place(n, q, fr), Place(n, k, fc)) == if done then Circulant(t, n, m, q, k, fr, fc) else m(Place(n, q, fr), Place(n, k, fc))
    {
      assert u(Place(n, q, fr), Place(n, k, fc)) == w(Place(n, q, fr), Place(n, k, fc));
    }
  }

  /** The sub-diagonal of a block as real and imaginary parts in turn. */
  method TakeDiagonal(M: array2<Complex>, n: nat, nr: nat, nc: nat, ghost w: CMatrix, ghost r: nat, ghost c: nat) returns (d: array<real>)
    requires nr == r * n && nc == c * n && nr + n <= M.Length0 && nc + n <= M.Length1 && Holds(M, w)
    ensures fresh(d) && Stores(d, 0, n, Diagonal(w, n, r, c))
  {
    var v := seq(n, f requires 0 <= f < n reads M => M[nr + f, nc + f]);
    d := Interleave(v, n);
    forall f | 0 <= f < n
      ensures Diagonal(w, n, r, c)(f) == Padded(v)(f)
    {
      assert Place(n, r, f) == nr + f && Place(n, c, f) == nc + f;
      assert M[nr + f, nc + f] == w(nr + f, nc + f);
    }
  }

  /** Where the values of node i begin. */
  ghost function Start(n: nat, i: nat): nat { i * n }

  lemma NextStart(n: nat, i: nat)
    ensures Start(n, i + 1) == Start(n, i) + n
  {
  }

  /** The fast form: every block is replaced by the circulant of the transform of
      its diagonal, whatever stands off the diagonal. */
  method MatrixFftFast(t: Trig, M: array2<Complex>, nodes: nat, n: nat, ghost bits: nat, ghost m: CMatrix) returns (ghost w: CMatrix)
    requires Lawful(t) && n == Pow2(bits) && M.Length0 == M.Length1 == nodes * n && Holds(M, m)
    modifies M
    ensures Holds(M, w) && MatrixTransformed(t, nodes, n, m, w)
  {
    w := m;
    var nc := 0;
    StartTreating(t, nodes, n, m);
    for c := 0 to nodes
      invariant nc == Start(n, c) && Holds(M, w) && Treated(t, nodes, n, m, w, c, 0)
    {
      hide Treated, Lawful, MatrixTransformed, Pow2, Start;
      NextStart(n, c);
      w := FastBlockColumn(t, M, nodes, n, bits, m, w, c, nc);
      nc := nc + n;
    }
    hide Lawful, Holds;
    AllTreated(t, nodes, n, m, w);
  }

  lemma AllTreated(t: Trig, nodes: nat, n: nat, m: CMatrix, w: CMatrix)
    requires n > 0 && Treated(t, nodes, n, m, w, nodes, 0)
    ensures MatrixTransformed(t, nodes, n, m, w)
  {
    forall q, k | 0 <= q < nodes && 0 <= k < nodes
      ensures BlockDone(t, n, m, w, q, k)
    {
      assert BlockState(t, n, m, w, nodes, 0, q, k);
    }
  }

  method FastBlockColumn(t: Trig, M: array2<Complex>, nodes: nat, n: nat, ghost bits: nat, ghost m: CMatrix, ghost v: CMatrix, ghost c: nat, nc: nat)
    returns (ghost w: CMatrix)
    requires Lawful(t) && n == Pow2(bits) && M.Length0 == M.Length1 == nodes * n && Holds(M, v)
    requires c < nodes && nc == Start(n, c) && Treated(t, nodes, n, m, v, c, 0)
    modifies M
    ensures Holds(M, w) && Treated(t, nodes, n, m, w, c + 1, 0)
  {
    w := v;
    var nr := 0;
    for r := 0 to nodes
      invariant nr == Start(n, r) && Holds(M, w) && Treated(t, nodes, n, m, w, c, r)
    {
      hide Treated, Lawful, Pow2, Start;
      NextStart(n, r);
      w := FastBlock(t, M, nodes, n, bits, m, w, r, c, nr, nc);
      nr := nr + n;
    }
    NextBlockColumn(t, nodes, n, m, w, c);
  }

  method FastBlock(t: Trig, M: array2<Complex>, nodes: nat, n: nat, ghost bits: nat, ghost m: CMatrix, ghost v: CMatrix, ghost r: nat, ghost c: nat, nr: nat, nc: nat)
    returns (ghost w: CMatrix)
    requires Lawful(t) && n == Pow2(bits) && M.Length0 == M.Length1 == nodes * n && Holds(M, v)
    requires r < nodes && c < nodes && nr == Start(n, r) && nc == Start(n, c) && Treated(t, nodes, n, m, v, c, r)
    modifies M
    ensures Holds(M, w) && Treated(t, nodes, n, m, w, c, r + 1)
  {
    hide Treated, Lawful, Pow2;
    NodeBounds(n, nodes, r);
    NodeBounds(n, nodes, c);
    var d := TakeDiagonal(M, n, nr, nc, v, r, c);
    ghost var y := SpectrumOfOne(t, d, n, bits, Diagonal(v, n, r, c));
    FillBlock(M, d, n, nr, nc, v, y);
    TreatBlock(t, nodes, n, m, v, y, r, c);
    w := Filled(v, y, n, nr, nc, n, 0);
  }

  lemma StartTreating(t: Trig, nodes: nat, n: nat, m: CMatrix)
    requires n > 0
    ensures Treated(t, nodes, n, m, m, 0, 0)
  {
    forall q, k | 0 <= q < nodes && 0 <= k < nodes
      ensures BlockState(t, n, m, m, 0, 0, q, k)
    {
    }
  }

  lemma NextBlockColumn(t: Trig, nodes: nat, n: nat, m: CMatrix, w: CMatrix, c: nat)
    requires n > 0 && Treated(t, nodes, n, m, w, c, nodes)
    ensures Treated(t, nodes, n, m, w, c + 1, 0)
  {
    var next := c + 1;
    forall q, k | 0 <= q < nodes && 0 <= k < nodes
      ensures BlockState(t, n, m, w, next, 0, q, k)
    {
      assert BlockState(t, n, m, w, c, nodes, q, k);
    }
  }

  /** The transform of a vector of a single node. */
  method SpectrumOfOne(t: Trig, d: array<real>, n: nat, ghost bits: nat, ghost x: CVector) returns (ghost y: CVector)
    requires Lawful(t) && n == Pow2(bits) && Stores(d, 0, n, x)
    modifies d
    ensures Stores(d, 0, n, y) && forall f | 0 <= f < n :: y(f) == Value(t, 1, n, x, f)
  {
    y := VectorFft(t, d, 1, n, 1, bits, x);
    forall f | 0 <= f < n
      ensures y(f) == Value(t, 1, n, x, f)
    {
      assert Place(n, 0, f) == f;
      ValueCongruence(t, 1, n, Node(x, n, 0), x, f);
    }
  }

  // ------------------------------------------------------------ slow form

  ghost function ColumnOf(m: CMatrix, j: int): CVector { i => m(i, j) }

  /** Columns before j are transformed node by node, the others are not. */
  ghost predicate ColumnsDone(t: Trig, nodes: nat, n: nat, m: CMatrix, w: CMatrix, j: nat)
    requires n > 0
  {
    && (forall k | 0 <= k < j :: NodesDone(t, 1, n, nodes, ColumnOf(m, k), ColumnOf(w, k), nodes))
    && (forall i, k | k >= j :: w(i, k) == m(i, k))
  }

  ghost predicate RowsDone(t: Trig, nodes: nat, n: nat, m: CMatrix, w: CMatrix, i: nat)
    requires n > 0
  {
    && (forall k | 0 <= k < i :: NodesDone(t, -1, n, nodes, Row(m, k), Row(w, k), nodes))
    && (forall k, j | k >= i :: w(k, j) == m(k, j))
  }

  ghost function WithColumn(w: CMatrix, j: int, y: CVector): CMatrix { (i, k) => if k == j then y(i) else w(i, k) }

  ghost function WithRow(w: CMatrix, i: int, y: CVector): CMatrix { (k, j) => if k == i then y(j) else w(k, j) }

  lemma NodesDoneCongruence(t: Trig, isign: int, n: nat, nodes: nat, x: CVector, x': CVector, y: CVector, y': CVector)
    requires n > 0 && NodesDone(t, isign, n, nodes, x, y, nodes)
    requires forall p | p >= 0 :: x(p) == x'(p) && y(p) == y'(p)
    ensures NodesDone(t, isign, n, nodes, x', y', nodes)
  {
    forall q, k | 0 <= q < nodes && 0 <= k < n
      ensures y'(Place(n, q, k)) == Value(t, isign, n, Node(x', n, q), k)
    {
      assert y(Place(n, q, k)) == y'(Place(n, q, k));
      ValueCongruence(t, isign, n, Node(x, n, q), Node(x', n, q), k);
    }
  }

  lemma ColumnStep(t: Trig, nodes: nat, n: nat, m: CMatrix, w: CMatrix, j: nat, y: CVector)
    requires n > 0 && ColumnsDone(t, nodes, n, m, w, j) && NodesDone(t, 1, n, nodes, ColumnOf(w, j), y, nodes)
    ensures ColumnsDone(t, nodes, n, m, WithColumn(w, j, y), j + 1)
  {
    var u := WithColumn(w, j, y);
    forall k | 0 <= k <= j
      ensures NodesDone(t, 1, n, nodes, ColumnOf(m, k), ColumnOf(u, k), nodes)
    {
      if k < j {
        NodesDoneCongruence(t, 1, n, nodes, ColumnOf(m, k), ColumnOf(m, k), ColumnOf(w, k), ColumnOf(u, k));
      } else {
        assert forall i :: w(i, j) == m(i, j);
        NodesDoneCongruence(t, 1, n, nodes, ColumnOf(w, j), ColumnOf(m, j), y, ColumnOf(u, j));
      }
    }
  }

  lemma RowStep(t: Trig, nodes: nat, n: nat, m: CMatrix, w: CMatrix, i: nat, y: CVector)
    requires n > 0 && RowsDone(t, nodes, n, m, w, i) && NodesDone(t, -1, n, nodes, Row(w, i), y, nodes)
    ensures RowsDone(t, nodes, n, m, WithRow(w, i, y), i + 1)
  {
    var u := WithRow(w, i, y);
    forall k | 0 <= k <= i
      ensures NodesDone(t, -1, n, nodes, Row(m, k), Row(u, k), nodes)
    {
      if k < i {
        NodesDoneCongruence(t, -1, n, nodes, Row(m, k), Row(m, k), Row(w, k), Row(u, k));
      } else {
        assert forall j :: w(i, j) == m(i, j);
        NodesDoneCongruence(t, -1, n, nodes, Row(w, i), Row(m, i), y, Row(u, i));
      }
    }
  }

  method SetColumn(M: array2<Complex>, c: nat, d: array<real>, ghost w: CMatrix, ghost y: CVector)
    requires c < M.Length1 && Holds(M, w) && Stores(d, 0, M.Length0, y)
    modifies M
    ensures Holds(M, WithColumn(w, c, y))
  {
    for i := 0 to M.Length0
      invariant Stores(d, 0, M.Length0, y)
      invariant forall k, j | 0 <= k < M.Length0 && 0 <= j < M.Length1 :: M[k, j] == if j == c && k < i then y(k) else w(k, j)
    {
      assert y(i) == Item(d, 0, i);
      M[i, c] := Complex(d[2 * i], d[2 * i + 1]);
    }
  }

  method SetRow(M: array2<Complex>, r: nat, d: array<real>, ghost w: CMatrix, ghost y: CVector)
    requires r < M.Length0 && Holds(M, w) && Stores(d, 0, M.Length1, y)
    modifies M
    ensures Holds(M, WithRow(w, r, y))
  {
    for i := 0 to M.Length1
      invariant Stores(d, 0, M.Length1, y)
      invariant forall k, j | 0 <= k < M.Length0 && 0 <= j < M.Length1 :: M[k, j] == if k == r && j < i then y(j) else w(k, j)
    {
      assert y(i) == Item(d, 0, i);
      M[r, i] := Complex(d[2 * i], d[2 * i + 1]);
    }
  }

  method ColumnFft(t: Trig, M: array2<Complex>, nodes: nat, n: nat, ghost bits: nat, c: nat, ghost w: CMatrix) returns (ghost y: CVector)
    requires Lawful(t) && n == Pow2(bits) && M.Length0 == nodes * n && c < M.Length1 && Holds(M, w)
    modifies M
    ensures Holds(M, WithColumn(w, c, y)) && NodesDone(t, 1, n, nodes, ColumnOf(w, c), y, nodes)
  {
    var size := M.Length0;
    var V := seq(size, i requires 0 <= i < size reads M => M[i, c]);
    var d := Interleave(V, size);
    ghost var x := ColumnOf(w, c);
    assert forall i | 0 <= i < size :: x(i) == Padded(V)(i);
    y := VectorFft(t, d, nodes, n, 1, bits, x);
    SetColumn(M, c, d, w, y);
  }

  method RowIfft(t: Trig, M: array2<Complex>, nodes: nat, n: nat, ghost bits: nat, r: nat, ghost w: CMatrix) returns (ghost y: CVector)
    requires Lawful(t) && n == Pow2(bits) && M.Length1 == nodes * n && r < M.Length0 && Holds(M, w)
    modifies M
    ensures Holds(M, WithRow(w, r, y)) && NodesDone(t, -1, n, nodes, Row(w, r), y, nodes)
  {
    var size := M.Length1;
    var V := seq(size, i requires 0 <= i < size reads M => M[r, i]);
    var d := Interleave(V, size);
    ghost var x := Row(w, r);
    assert forall i | 0 <= i < size :: x(i) == Padded(V)(i);
    y := VectorFft(t, d, nodes, n, -1, bits, x);
    SetRow(M, r, d, w, y);
  }

  /** Every block of the matrix is diagonal, as the non-linear device matrices
      are in the time domain. */
  ghost predicate BlockDiagonal(nodes: nat, n: nat, m: CMatrix) {
    forall r, c, fr, fc | 0 <= r < nodes && 0 <= c < nodes && 0 <= fr < n && 0 <= fc < n && fr != fc ::
      m(Place(n, r, fr), Place(n, c, fc)) == Zero
  }

  /** The slow form: each column is transformed, then each row transformed back. */
  method MatrixFftSlow(t: Trig, M: array2<Complex>, nodes: nat, n: nat, ghost bits: nat, ghost m: CMatrix) returns (ghost w: CMatrix)
    requires Lawful(t) && n == Pow2(bits) && M.Length0 == M.Length1 == nodes * n && Holds(M, m)
    modifies M
    ensures Holds(M, w)
    ensures BlockDiagonal(nodes, n, m) ==> MatrixTransformed(t, nodes, n, m, w)
  {
    ghost var v := m;
    for c := 0 to M.Length1
      invariant Holds(M, v) && ColumnsDone(t, nodes, n, m, v, c)
    {
      ghost var y := ColumnFft(t, M, nodes, n, bits, c, v);
      ColumnStep(t, nodes, n, m, v, c, y);
      v := WithColumn(v, c, y);
    }
    w := v;
    for r := 0 to M.Length0
      invariant Holds(M, w) && RowsDone(t, nodes, n, v, w, r)
    {
      ghost var y := RowIfft(t, M, nodes, n, bits, r, w);
      RowStep(t, nodes, n, v, w, r, y);
      w := WithRow(w, r, y);
    }
    if BlockDiagonal(nodes, n, m) {
      SlowIsTransformed(t, nodes, n, m, v, w);
    }
  }

  lemma SlowIsTransformed(t: Trig, nodes: nat, n: nat, m: CMatrix, v: CMatrix, w: CMatrix)
    requires Lawful(t) && n > 0 && BlockDiagonal(nodes, n, m)
    requires ColumnsDone(t, nodes, n, m, v, nodes * n) && RowsDone(t, nodes, n, v, w, nodes * n)
    ensures MatrixTransformed(t, nodes, n, m, w)
  {
    forall r, c | 0 <= r < nodes && 0 <= c < nodes
      ensures BlockDone(t, n, m, w, r, c)
    {
      forall fr, fc | 0 <= fr < n && 0 <= fc < n
        ensures w(Place(n, r, fr), Place(n, c, fc)) == Circulant(t, n, m, r, c, fr, fc)
      {
        SlowEntry(t, nodes, n, m, v, w, r, c, fr, fc);
      }
    }
  }

  lemma SlowEntry(t: Trig, nodes: nat, n: nat, m: CMatrix, v: CMatrix, w: CMatrix, r: nat, c: nat, fr: nat, fc: nat)
    requires Lawful(t) && BlockDiagonal(nodes, n, m) && r < nodes && c < nodes && fr < n && fc < n
    requires ColumnsDone(t, nodes, n, m, v, nodes * n) && RowsDone(t, nodes, n, v, w, nodes * n)
    ensures w(Place(n, r, fr), Place(n, c, fc)) == Circulant(t, n, m, r, c, fr, fc)
  {
    var R := Place(n, r, fr);
    var x, d := Node(Row(v, R), n, c), Diagonal(m, n, r, c);
    PlaceBound(n, r, fr, nodes);
    assert Row(w, R)(Place(n, c, fc)) == Transform(t, -1, n, x, fc);
    forall g | 0 <= g < n
      ensures Term(t, -1, n, x, fc)(g) == Mul(Complex(1.0 / (n as real), 0.0), Term(t, 1, n, d, fr - fc)(g))
    {
      ColumnEntry(t, nodes, n, m, v, r, c, fr, g);
      SlowProductTerm(t, n, d(g), fr, fc, g);
    }
    SumScale(n, Complex(1.0 / (n as real), 0.0), Term(t, 1, n, d, fr - fc), Term(t, -1, n, x, fc));
    ShrunkIsProduct(n, Transform(t, 1, n, d, fr - fc));
  }

  /** After the columns: only the diagonal element contributes. */
  lemma ColumnEntry(t: Trig, nodes: nat, n: nat, m: CMatrix, v: CMatrix, r: nat, c: nat, fr: nat, g: nat)
    requires n > 0 && BlockDiagonal(nodes, n, m) && r < nodes && c < nodes && fr < n && g < n
    requires ColumnsDone(t, nodes, n, m, v, nodes * n)
    ensures v(Place(n, r, fr), Place(n, c, g))
         == Shrunk(n, Mul(m(Place(n, r, g), Place(n, c, g)), Root(t, 1, n, g * fr)))
  {
    var C := Place(n, c, g);
    PlaceBound(n, c, g, nodes);
    var z := Node(ColumnOf(m, C), n, r);
    assert ColumnOf(v, C)(Place(n, r, fr)) == Value(t, 1, n, z, fr);
    forall f | 0 <= f < n && f != g
      ensures Term(t, 1, n, z, fr)(f) == Zero
    {
      assert z(f) == m(Place(n, r, f), Place(n, c, g)) == Zero;
      ZeroProduct(Root(t, 1, n, f * fr));
    }
    SumSingle(n, g, Term(t, 1, n, z, fr));
  }

  lemma ZeroProduct(a: Complex)
    ensures Mul(Zero, a) == Zero
  {
  }

  lemma ShrunkIsProduct(n: nat, a: Complex)
    requires n > 0
    ensures Shrunk(n, a) == Mul(Complex(1.0 / (n as real), 0.0), a)
  {
    Reciprocal(a.re, n as real);
    Reciprocal(a.im, n as real);
  }

  lemma SlowProductTerm(t: Trig, n: nat, d: Complex, fr: nat, fc: nat, g: nat)
    requires Lawful(t) && n > 0
    ensures Mul(Shrunk(n, Mul(d, Root(t, 1, n, g * fr))), Root(t, -1, n, g * fc))
         == Mul(Complex(1.0 / (n as real), 0.0), Mul(d, Root(t, 1, n, g * (fr - fc))))
  {
    var p, q, k := Root(t, 1, n, g * fr), Root(t, -1, n, g * fc), Complex(1.0 / (n as real), 0.0);
    ShrunkIsProduct(n, Mul(d, p));
    MulAssociates(k, Mul(d, p), q);
    MulAssociates(d, p, q);
    RootConj(t, 1, n, g * fc);
    RootSum(t, 1, n, g * fr, -(g * fc));
    assert g * fr + -(g * fc) == g * (fr - fc);
  }

  // ------------------------------------------------------------ both forms

  lemma PlaceFound(n: nat, nodes: nat, i: nat)
    requires n > 0 && i < nodes * n
    ensures i / n < nodes && Place(n, i / n, i % n) == i
  {
  }

  /** What is required of both forms leaves no choice. */
  lemma TransformedOnce(t: Trig, nodes: nat, n: nat, m: CMatrix, w: CMatrix, v: CMatrix, i: nat, j: nat)
    requires n > 0 && MatrixTransformed(t, nodes, n, m, w) && MatrixTransformed(t, nodes, n, m, v)
    requires i < nodes * n && j < nodes * n
    ensures w(i, j) == v(i, j)
  {
    PlaceFound(n, nodes, i);
    PlaceFound(n, nodes, j);
    var r, c, fr, fc := i / n, j / n, i % n, j % n;
    hide Place, Circulant;
    assert BlockDone(t, n, m, w, r, c) && BlockDone(t, n, m, v, r, c);
    assert w(Place(n, r, fr), Place(n, c, fc)) == v(Place(n, r, fr), Place(n, c, fc));
  }

  /** On matrices with diagonal blocks the fast form leaves what the slow form
      leaves. */
  method FastIsSlow(t: Trig, M: array2<Complex>, K: array2<Complex>, nodes: nat, n: nat, ghost bits: nat, ghost m: CMatrix)
    requires Lawful(t) && n == Pow2(bits) && M != K && Holds(M, m) && Holds(K, m) && BlockDiagonal(nodes, n, m)
    requires M.Length0 == M.Length1 == nodes * n && K.Length0 == K.Length1 == nodes * n
    modifies M, K
    ensures forall i, j | 0 <= i < nodes * n && 0 <= j < nodes * n :: M[i, j] == K[i, j]
  {
    hide MatrixTransformed, BlockDiagonal, Lawful;
    ghost var w := MatrixFftFast(t, M, nodes, n, bits, m);
    ghost var v := MatrixFftSlow(t, K, nodes, n, bits, m);
    forall i, j | 0 <= i < nodes * n && 0 <= j < nodes * n
      ensures M[i, j] == K[i, j]
    {
      TransformedOnce(t, nodes, n, m, w, v, i, j);
    }
  }
}
