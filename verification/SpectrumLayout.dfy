/** Spectra of one excitation frequency: from the values at DC and the positive
    frequencies to the full two sided spectrum, node by node. */
module SpectrumLayout {
  import opened Arithmetic
  import opened Complex
  import opened Roots
  import opened Dft
  import opened FftStages
  import opened Inversion
  import opened TwoForOne

  // -------------------------------------------------------------- vectors

  /** A one sided spectrum of m values continued by its conjugated mirror image:
      2m - 2 values. */
  ghost function Extended(m: nat, x: CVector): CVector {
    k => if k < m then x(k) else Conj(x(2 * m - 2 - k))
  }

  /** The section of node r, m values to a node. */
  ghost function Section(v: seq<Complex>, m: nat, r: nat): CVector {
    k => if k >= 0 && Place(m, r, k) < |v| then v[Place(m, r, k)] else Zero
  }

  /** Nodes before r, and the first f values of node r, are extended. */
  ghost predicate SectionsDone(v: seq<Complex>, res: seq<Complex>, m: nat, n: nat, nodes: nat, r: nat, f: nat) {
    forall q, k | 0 <= q < nodes && 0 <= k < n && (q < r || (q == r && k < f)) ::
      Place(n, q, k) < |res| && res[Place(n, q, k)] == Extended(m, Section(v, m, q))(k)
  }

  lemma OneMore(v: seq<Complex>, res: seq<Complex>, m: nat, n: nat, nodes: nat, r: nat, f: nat, c: Complex)
    requires SectionsDone(v, res, m, n, nodes, r, f) && r < nodes && f < n && |res| == nodes * n
    requires c == Extended(m, Section(v, m, r))(f)
    ensures Place(n, r, f) < |res| && SectionsDone(v, res[Place(n, r, f) := c], m, n, nodes, r, f + 1)
  {
    PlaceBound(n, r, f, nodes);
    hide Place, Extended;
    var res' := res[Place(n, r, f) := c];
    forall q, k | 0 <= q < nodes && 0 <= k < n && (q < r || (q == r && k < f + 1))
      ensures Place(n, q, k) < |res'| && res'[Place(n, q, k)] == Extended(m, Section(v, m, q))(k)
    {
      if q == r && k == f {
      } else {
        assert Place(n, q, k) < |res|;
        if Place(n, q, k) == Place(n, r, f) { PlaceInjective(n, q, k, r, f); }
      }
    }
  }

  /** Each node's one sided spectrum becomes its two sided one. */
  method ExpandVector(v: array<Complex>, nodes: nat, lnfreqs: nat, nlfreqs: nat) returns (res: array<Complex>)
    requires lnfreqs >= 2 && nlfreqs == 2 * lnfreqs - 2 && v.Length == nodes * lnfreqs
    ensures fresh(res) && res.Length == nodes * nlfreqs
    ensures SectionsDone(v[..], res[..], lnfreqs, nlfreqs, nodes, nodes, 0)
    ensures forall q, k | 0 <= q < nodes && 0 <= k < nlfreqs ::
      Place(nlfreqs, q, k) < res.Length
      && res[Place(nlfreqs, q, k)] == Extended(lnfreqs, Section(v[..], lnfreqs, q))(k)
  {
    res := new Complex[nodes * nlfreqs](_ => Zero);
    for r := 0 to nodes
      invariant SectionsDone(v[..], res[..], lnfreqs, nlfreqs, nodes, r, 0)
    {
      ExpandSection(v, res, nodes, lnfreqs, nlfreqs, r);
    }
    assert forall i | 0 <= i < res.Length :: res[..][i] == res[i];
  }

  method ExpandSection(v: array<Complex>, res: array<Complex>, nodes: nat, lnfreqs: nat, nlfreqs: nat, r: nat)
    requires lnfreqs >= 2 && nlfreqs == 2 * lnfreqs - 2 && v.Length == nodes * lnfreqs && res.Length == nodes * nlfreqs
    requires v != res && r < nodes && SectionsDone(v[..], res[..], lnfreqs, nlfreqs, nodes, r, 0)
    modifies res
    ensures SectionsDone(v[..], res[..], lnfreqs, nlfreqs, nodes, r + 1, 0)
  {
    var rt, rf, ff := r * nlfreqs, r * lnfreqs, 0;
    while ff < lnfreqs
      invariant 0 <= ff <= lnfreqs && rt == Place(nlfreqs, r, ff) && rf == Place(lnfreqs, r, ff)
      invariant SectionsDone(v[..], res[..], lnfreqs, nlfreqs, nodes, r, ff)
    {
      CopyItem(v, res, nodes, lnfreqs, nlfreqs, r, ff, rf, rt);
      ff, rf, rt := ff + 1, rf + 1, rt + 1;
    }
    rf := rf - 2;
    while ff < nlfreqs
      invariant lnfreqs <= ff <= nlfreqs && rt == Place(nlfreqs, r, ff) && rf == r * lnfreqs + (nlfreqs - ff)
      invariant SectionsDone(v[..], res[..], lnfreqs, nlfreqs, nodes, r, ff)
    {
      ConjugateItem(v, res, nodes, lnfreqs, nlfreqs, r, ff, rf, rt);
      ff, rf, rt := ff + 1, rf - 1, rt + 1;
    }
  }

  method CopyItem(v: array<Complex>, res: array<Complex>, nodes: nat, m: nat, n: nat, r: nat, ff: nat, rf: nat, rt: nat)
    requires n == 2 * m - 2 && v.Length == nodes * m && res.Length == nodes * n && v != res
    requires r < nodes && ff < m && ff < n && rt == Place(n, r, ff) && rf == Place(m, r, ff)
    requires SectionsDone(v[..], res[..], m, n, nodes, r, ff)
    modifies res
    ensures SectionsDone(v[..], res[..], m, n, nodes, r, ff + 1)
  {
    PlaceBound(m, r, ff, nodes);
    PlaceBound(n, r, ff, nodes);
    OneMore(v[..], res[..], m, n, nodes, r, ff, v[rf]);
    res[rt] := v[rf];
  }

  method ConjugateItem(v: array<Complex>, res: array<Complex>, nodes: nat, m: nat, n: nat, r: nat, ff: nat, rf: int, rt: nat)
    requires n == 2 * m - 2 && v.Length == nodes * m && res.Length == nodes * n && v != res
    requires r < nodes && m <= ff < n && rt == Place(n, r, ff) && rf == r * m + (n - ff)
    requires SectionsDone(v[..], res[..], m, n, nodes, r, ff)
    modifies res
    ensures SectionsDone(v[..], res[..], m, n, nodes, r, ff + 1)
  {
    assert rf == Place(m, r, n - ff);
    PlaceBound(m, r, n - ff, nodes);
    PlaceBound(n, r, ff, nodes);
    OneMore(v[..], res[..], m, n, nodes, r, ff, Conj(v[rf]));
    res[rt] := Conj(v[rf]);
  }

  // -------------------------------------------------- real valued signals

  /** Mirrored values are conjugated, DC and the middle being their own mirror. */
  ghost predicate Hermitian(n: nat, x: CVector) {
    x(0).im == 0.0 && forall k | 0 < k < n :: x(n - k) == Conj(x(k))
  }

  ghost predicate RealValued(n: nat, y: CVector) {
    forall j | 0 <= j < n :: y(j).im == 0.0
  }

  /** The extended spectrum is Hermitian exactly if DC and the highest frequency
      are real. */
  lemma ExtendedHermitian(m: nat, x: CVector)
    requires m >= 2
    ensures Hermitian(2 * m - 2, Extended(m, x)) <==> x(0).im == 0.0 && x(m - 1).im == 0.0
  {
    var e, n := Extended(m, x), 2 * m - 2;
    if Hermitian(n, e) {
      assert e(n - (m - 1)) == Conj(e(m - 1));
    }
    if x(0).im == 0.0 && x(m - 1).im == 0.0 {
      forall k | 0 < k < n
        ensures e(n - k) == Conj(e(k))
      {
      }
    }
  }

  ghost function Reals(y: CVector): CVector { j => Complex(y(j).re, 0.0) }

  ghost function Imaginaries(y: CVector): CVector { j => Complex(y(j).im, 0.0) }

  lemma TimesI(a: Complex)
    ensures Mul(I, a) == Complex(-a.im, a.re)
  {
  }

  /** The spectrum of a signal is Hermitian exactly if the signal is real. */
  lemma RealIffHermitian(t: Trig, isign: int, n: nat, y: CVector)
    requires Lawful(t) && (isign == 1 || isign == -1) && n > 0
    ensures Hermitian(n, Spectrum(t, isign, n, y)) <==> RealValued(n, y)
  {
    hide Hermitian, RealValued, Lawful, Symmetric, Composed, Transform;
    var u, v := Reals(y), Imaginaries(y);
    var f, g, s := Spectrum(t, isign, n, u), Spectrum(t, isign, n, v), Spectrum(t, isign, n, y);
    RealSpectrum(t, isign, n, u);
    RealSpectrum(t, isign, n, v);
    PartsSpectrum(t, isign, n, y);
    if Hermitian(n, s) {
      ImaginariesVanish(n, s, f, g);
      SilentSignal(t, isign, n, v);
      SilentReal(n, y);
    }
    if RealValued(n, y) {
      RealSilent(n, y);
      SilentSpectrum(t, isign, n, v);
      NoImaginaries(n, s, f, g);
    }
  }

  lemma SilentReal(n: nat, y: CVector)
    requires forall j | 0 <= j < n :: Imaginaries(y)(j) == Zero
    ensures RealValued(n, y)
  {
    forall j | 0 <= j < n
      ensures y(j).im == 0.0
    {
      assert Imaginaries(y)(j) == Zero;
    }
  }

  lemma RealSilent(n: nat, y: CVector)
    requires RealValued(n, y)
    ensures forall j | 0 <= j < n :: Imaginaries(y)(j) == Zero
  {
  }

  /** s is f + i g. */
  ghost predicate Composed(n: nat, s: CVector, f: CVector, g: CVector) {
    forall k | 0 <= k <= n :: s(k) == Complex(f(k).re - g(k).im, f(k).im + g(k).re)
  }

  lemma PartsSpectrum(t: Trig, isign: int, n: nat, y: CVector)
    requires n > 0
    ensures Composed(n, Spectrum(t, isign, n, y), Spectrum(t, isign, n, Reals(y)), Spectrum(t, isign, n, Imaginaries(y)))
  {
    var u, v := Reals(y), Imaginaries(y);
    var f, g, h := Spectrum(t, isign, n, u), Spectrum(t, isign, n, v), Spectrum(t, isign, n, Packed(u, v));
    PackedSpectrum(t, isign, n, u, v);
    forall k | 0 <= k <= n
      ensures Spectrum(t, isign, n, y)(k) == Complex(f(k).re - g(k).im, f(k).im + g(k).re)
    {
      forall j | 0 <= j < n
        ensures y(j) == Packed(u, v)(j)
      {
        TimesI(v(j));
      }
      TransformCongruence(t, isign, n, y, Packed(u, v), k);
      assert h(k) == Add(f(k), Mul(I, g(k)));
      TimesI(g(k));
    }
  }

  lemma ImaginariesVanish(n: nat, s: CVector, f: CVector, g: CVector)
    requires n > 0 && Hermitian(n, s) && Composed(n, s, f, g) && Symmetric(n, f) && Symmetric(n, g)
    ensures forall k | 0 <= k < n :: g(k) == Zero
  {
    forall k | 0 <= k < n
      ensures g(k) == Zero
    {
      var q := n - k;
      assert s(k) == Complex(f(k).re - g(k).im, f(k).im + g(k).re);
      assert s(q) == Complex(f(q).re - g(q).im, f(q).im + g(q).re);
      assert f(q) == Conj(f(k)) && g(q) == Conj(g(k)) && (k > 0 ==> s(q) == Conj(s(k)));
    }
  }

  lemma NoImaginaries(n: nat, s: CVector, f: CVector, g: CVector)
    requires n > 0 && Composed(n, s, f, g) && Symmetric(n, f) && forall k | 0 <= k < n :: g(k) == Zero
    ensures Hermitian(n, s)
  {
    forall k | 0 <= k < n
      ensures s(k) == f(k)
    {
    }
    forall k | 0 < k < n
      ensures s(n - k) == Conj(s(k))
    {
      assert f(n - k) == Conj(f(k));
    }
  }

  /** A signal without spectrum is zero. */
  lemma SilentSignal(t: Trig, isign: int, n: nat, v: CVector)
    requires Lawful(t) && (isign == 1 || isign == -1) && n > 0
    requires forall k | 0 <= k < n :: Spectrum(t, isign, n, v)(k) == Zero
    ensures forall j | 0 <= j < n :: v(j) == Zero
  {
    var g := Spectrum(t, isign, n, v);
    forall j | 0 <= j < n
      ensures v(j) == Zero
    {
      InverseTransform(t, isign, n, v, j);
      SilentTransform(t, -isign, n, g, j);
      MulZero(v(j), OfNat(n));
    }
  }

  lemma SilentTransform(t: Trig, isign: int, n: nat, g: CVector, k: int)
    requires n > 0 && forall j | 0 <= j < n :: g(j) == Zero
    ensures Transform(t, isign, n, g, k) == Zero
  {
    forall j | 0 <= j < n
      ensures Term(t, isign, n, g, k)(j) == Zero
    {
      assert Mul(Zero, Root(t, isign, n, j * k)) == Zero;
    }
    SumZero(n, Term(t, isign, n, g, k));
  }

  lemma SilentSpectrum(t: Trig, isign: int, n: nat, v: CVector)
    requires n > 0 && forall j | 0 <= j < n :: v(j) == Zero
    ensures forall k | 0 <= k < n :: Spectrum(t, isign, n, v)(k) == Zero
  {
    forall k | 0 <= k < n
      ensures Spectrum(t, isign, n, v)(k) == Zero
    {
      SilentTransform(t, isign, n, v, k);
    }
  }

  /** A signal whose spectrum is n times x is real exactly if x is Hermitian. */
  lemma SignalReal(t: Trig, isign: int, n: nat, x: CVector)
    requires Lawful(t) && (isign == 1 || isign == -1) && n > 0
    ensures RealValued(n, Spectrum(t, -isign, n, x)) <==> Hermitian(n, x)
  {
    var y := Spectrum(t, -isign, n, x);
    RealIffHermitian(t, isign, n, y);
    forall k | 0 <= k < n
      ensures Spectrum(t, isign, n, y)(k) == Mul(x(k), OfNat(n))
    {
      InverseTransform(t, -isign, n, x, k);
      assert -(-isign) == isign;
    }
    ScaledHermitian(n, x, Spectrum(t, isign, n, y));
  }

  lemma TimesNat(a: Complex, n: nat)
    ensures Mul(a, OfNat(n)) == Complex(a.re * n as real, a.im * n as real)
  {
  }

  lemma SameTimesNat(a: Complex, b: Complex, n: nat)
    requires n > 0
    ensures Mul(a, OfNat(n)) == Conj(Mul(b, OfNat(n))) <==> a == Conj(b)
    ensures Mul(a, OfNat(n)).im == 0.0 <==> a.im == 0.0
  {
    TimesNat(a, n);
    TimesNat(b, n);
    SameFactor(a.re, b.re, n as real);
    SameFactor(a.im, -b.im, n as real);
    SameFactor(a.im, 0.0, n as real);
  }

  lemma ScaledHermitian(n: nat, x: CVector, s: CVector)
    requires n > 0 && forall k | 0 <= k < n :: s(k) == Mul(x(k), OfNat(n))
    ensures Hermitian(n, s) <==> Hermitian(n, x)
  {
    SameTimesNat(x(0), x(0), n);
    forall k | 0 < k < n
      ensures s(n - k) == Conj(s(k)) <==> x(n - k) == Conj(x(k))
    {
      SameTimesNat(x(n - k), x(k), n);
    }
  }

  /** The time signal of an expanded spectrum is real exactly if its DC value and
      the value at the highest frequency are. */
  lemma ExpandedSignalReal(t: Trig, isign: int, m: nat, x: CVector)
    requires Lawful(t) && (isign == 1 || isign == -1) && m >= 2
    ensures RealValued(2 * m - 2, Spectrum(t, isign, 2 * m - 2, Extended(m, x)))
      <==> x(0).im == 0.0 && x(m - 1).im == 0.0
  {
    SignalReal(t, -isign, 2 * m - 2, Extended(m, x));
    assert -(-isign) == isign;
    ExtendedHermitian(m, x);
  }

  // ------------------------------------------------------------- matrices

  /** The value for frequencies k and k2 in the block of nodes r and c. */
  ghost function Entry(a: array2<Complex>, m: nat, r: nat, k: nat, c: nat, k2: nat): Complex
    reads a
  {
    if Place(m, r, k) < a.Length0 && Place(m, c, k2) < a.Length1 then a[Place(m, r, k), Place(m, c, k2)] else Zero
  }

  /** The diagonal of the block of nodes r and c. */
  ghost function Diagonal(a: array2<Complex>, m: nat, r: nat, c: nat): CVector
    reads a
  {
    var v := seq(m, k requires 0 <= k < m reads a => Entry(a, m, r, k, c, k));
    k => if 0 <= k < m then v[k] else Zero
  }

  predicate Before(q: nat, p: nat, k: nat, r: nat, c: nat, f: nat) {
    q < r || (q == r && (p < c || (p == c && k < f)))
  }

  ghost predicate EntryIs(d: CVector, res: array2<Complex>, m: nat, n: nat, q: nat, k: nat, p: nat, k2: nat, done: bool)
    reads res
  {
    Entry(res, n, q, k, p, k2) == if k == k2 && done then Extended(m, d)(k) else Zero
  }

  /** The blocks of rows before r, those of row r before column c, and the first f
      values of the next are extended; everything else is still zero. */
  ghost predicate BlocksDone(a: array2<Complex>, res: array2<Complex>, m: nat, n: nat, nodes: nat, r: nat, c: nat, f: nat)
    reads a, res
  {
    forall q, k, p, k2 | 0 <= q < nodes && 0 <= p < nodes && 0 <= k < n && 0 <= k2 < n ::
      EntryIs(Diagonal(a, m, q, p), res, m, n, q, k, p, k2, Before(q, p, k, r, c, f))
  }

  method StoreEntry(a: array2<Complex>, res: array2<Complex>, m: nat, n: nat, nodes: nat, r: nat, c: nat, f: nat,
                    rt: nat, ct: nat, value: Complex)
    requires a != res && res.Length0 == res.Length1 == nodes * n && r < nodes && c < nodes && f < n
    requires rt == Place(n, r, f) && ct == Place(n, c, f) && value == Extended(m, Diagonal(a, m, r, c))(f)
    requires BlocksDone(a, res, m, n, nodes, r, c, f)
    modifies res
    ensures BlocksDone(a, res, m, n, nodes, r, c, f + 1)
  {
    PlaceBound(n, r, f, nodes);
    PlaceBound(n, c, f, nodes);
    var next := f + 1;
    label before:
    res[rt, ct] := value;
    forall q, k, p, k2 | 0 <= q < nodes && 0 <= p < nodes && 0 <= k < n && 0 <= k2 < n
      ensures EntryIs(Diagonal(a, m, q, p), res, m, n, q, k, p, k2, Before(q, p, k, r, c, next))
    {
      assert old@before(EntryIs(Diagonal(a, m, q, p), res, m, n, q, k, p, k2, Before(q, p, k, r, c, f)));
      hide Extended, Place;
      if Place(n, q, k) == rt && Place(n, p, k2) == ct {
        PlaceInjective(n, q, k, r, f);
        PlaceInjective(n, p, k2, c, f);
      } else {
        assert Entry(res, n, q, k, p, k2) == old@before(Entry(res, n, q, k, p, k2));
      }
    }
  }

  method CopyEntry(a: array2<Complex>, res: array2<Complex>, nodes: nat, m: nat, n: nat, r: nat, c: nat, ff: nat,
                   rf: nat, rt: nat, cf: nat, ct: nat)
    requires n == 2 * m - 2 && a != res && a.Length0 == a.Length1 == nodes * m && res.Length0 == res.Length1 == nodes * n
    requires r < nodes && c < nodes && ff < m && ff < n && rt == Place(n, r, ff) && ct == Place(n, c, ff)
    requires rf == Place(m, r, ff) && cf == Place(m, c, ff) && BlocksDone(a, res, m, n, nodes, r, c, ff)
    modifies res
    ensures BlocksDone(a, res, m, n, nodes, r, c, ff + 1)
  {
    hide BlocksDone;
    PlaceBound(m, r, ff, nodes);
    PlaceBound(m, c, ff, nodes);
    StoreEntry(a, res, m, n, nodes, r, c, ff, rt, ct, a[rf, cf]);
  }

  method ConjugateEntry(a: array2<Complex>, res: array2<Complex>, nodes: nat, m: nat, n: nat, r: nat, c: nat, ff: nat,
                        rf: int, rt: nat, cf: int, ct: nat)
    requires n == 2 * m - 2 && a != res && a.Length0 == a.Length1 == nodes * m && res.Length0 == res.Length1 == nodes * n
    requires r < nodes && c < nodes && m <= ff < n && rt == Place(n, r, ff) && ct == Place(n, c, ff)
    requires rf == r * m + (n - ff) && cf == c * m + (n - ff) && BlocksDone(a, res, m, n, nodes, r, c, ff)
    modifies res
    ensures BlocksDone(a, res, m, n, nodes, r, c, ff + 1)
  {
    hide BlocksDone;
    var mirror := n - ff;
    assert rf == Place(m, r, mirror) && cf == Place(m, c, mirror);
    PlaceBound(m, r, mirror, nodes);
    PlaceBound(m, c, mirror, nodes);
    StoreEntry(a, res, m, n, nodes, r, c, ff, rt, ct, Conj(a[rf, cf]));
  }

  method ExpandBlock(a: array2<Complex>, res: array2<Complex>, nodes: nat, lnfreqs: nat, nlfreqs: nat, r: nat, c: nat)
    requires lnfreqs >= 2 && nlfreqs == 2 * lnfreqs - 2 && a != res
    requires a.Length0 == a.Length1 == nodes * lnfreqs && res.Length0 == res.Length1 == nodes * nlfreqs
    requires r < nodes && c < nodes && BlocksDone(a, res, lnfreqs, nlfreqs, nodes, r, c, 0)
    modifies res
    ensures BlocksDone(a, res, lnfreqs, nlfreqs, nodes, r, c + 1, 0)
  {
    hide BlocksDone;
    var rf, rt, cf, ct, ff := r * lnfreqs, r * nlfreqs, c * lnfreqs, c * nlfreqs, 0;
    while ff < lnfreqs
      invariant 0 <= ff <= lnfreqs && rt == Place(nlfreqs, r, ff) && rf == Place(lnfreqs, r, ff)
      invariant ct == Place(nlfreqs, c, ff) && cf == Place(lnfreqs, c, ff)
      invariant BlocksDone(a, res, lnfreqs, nlfreqs, nodes, r, c, ff)
    {
      CopyEntry(a, res, nodes, lnfreqs, nlfreqs, r, c, ff, rf, rt, cf, ct);
      ff, cf, ct, rf, rt := ff + 1, cf + 1, ct + 1, rf + 1, rt + 1;
    }
    cf, rf := cf - 2, rf - 2;
    while ff < nlfreqs
      invariant lnfreqs <= ff <= nlfreqs && rt == Place(nlfreqs, r, ff) && ct == Place(nlfreqs, c, ff)
      invariant rf == r * lnfreqs + (nlfreqs - ff) && cf == c * lnfreqs + (nlfreqs - ff)
      invariant BlocksDone(a, res, lnfreqs, nlfreqs, nodes, r, c, ff)
    {
      ConjugateEntry(a, res, nodes, lnfreqs, nlfreqs, r, c, ff, rf, rt, cf, ct);
      ff, cf, ct, rf, rt := ff + 1, cf - 1, ct + 1, rf - 1, rt + 1;
    }
    NextBlock(a, res, lnfreqs, nlfreqs, nodes, r, c);
  }

  lemma NextBlock(a: array2<Complex>, res: array2<Complex>, m: nat, n: nat, nodes: nat, r: nat, c: nat)
    requires BlocksDone(a, res, m, n, nodes, r, c, n)
    ensures BlocksDone(a, res, m, n, nodes, r, c + 1, 0)
  {
    var next := c + 1;
    forall q, k, p, k2 | 0 <= q < nodes && 0 <= p < nodes && 0 <= k < n && 0 <= k2 < n
      ensures EntryIs(Diagonal(a, m, q, p), res, m, n, q, k, p, k2, Before(q, p, k, r, next, 0))
    {
      assert EntryIs(Diagonal(a, m, q, p), res, m, n, q, k, p, k2, Before(q, p, k, r, c, n));
    }
  }

  lemma NextRow(a: array2<Complex>, res: array2<Complex>, m: nat, n: nat, nodes: nat, r: nat)
    requires BlocksDone(a, res, m, n, nodes, r, nodes, 0)
    ensures BlocksDone(a, res, m, n, nodes, r + 1, 0, 0)
  {
    var next := r + 1;
    forall q, k, p, k2 | 0 <= q < nodes && 0 <= p < nodes && 0 <= k < n && 0 <= k2 < n
      ensures EntryIs(Diagonal(a, m, q, p), res, m, n, q, k, p, k2, Before(q, p, k, next, 0, 0))
    {
      assert EntryIs(Diagonal(a, m, q, p), res, m, n, q, k, p, k2, Before(q, p, k, r, nodes, 0));
    }
  }

  /** res is the expansion of a: every block has the extended diagonal of a's block
      on its own diagonal and nothing else. */
  ghost predicate Expanded(a: array2<Complex>, res: array2<Complex>, m: nat, nodes: nat)
    reads a, res
  {
    m >= 2 && BlocksDone(a, res, m, 2 * m - 2, nodes, nodes, 0, 0)
  }

  /** Each block's diagonal becomes its two sided one. */
  method ExpandMatrix(a: array2<Complex>, nodes: nat, lnfreqs: nat, nlfreqs: nat) returns (res: array2<Complex>)
    requires lnfreqs >= 2 && nlfreqs == 2 * lnfreqs - 2 && a.Length0 == a.Length1 == nodes * lnfreqs
    ensures fresh(res) && res.Length0 == res.Length1 == nodes * nlfreqs && Expanded(a, res, lnfreqs, nodes)
  {
    res := new Complex[nodes * nlfreqs, nodes * nlfreqs]((_, _) => Zero);
    assert BlocksDone(a, res, lnfreqs, nlfreqs, nodes, 0, 0, 0);
    for r := 0 to nodes
      invariant BlocksDone(a, res, lnfreqs, nlfreqs, nodes, r, 0, 0)
    {
      for c := 0 to nodes
        invariant BlocksDone(a, res, lnfreqs, nlfreqs, nodes, r, c, 0)
      {
        ExpandBlock(a, res, nodes, lnfreqs, nlfreqs, r, c);
      }
      NextRow(a, res, lnfreqs, nlfreqs, nodes, r);
    }
  }

  // ------------------------------------------------ the expanded equations

  /** Component i of the product of a matrix and a vector. */
  ghost function Product(size: nat, a: CMatrix, x: CVector, i: int): Complex {
    Sum(size, j => Mul(a(i, j), x(j)))
  }

  /** The section of node r of a vector with m values to a node. */
  ghost function Part(x: CVector, m: nat, r: nat): CVector {
    k => if k >= 0 then x(Place(m, r, k)) else Zero
  }

  /** Values that differ between frequencies do not couple. */
  ghost predicate DiagonalBlocks(a: CMatrix, m: nat, nodes: nat) {
    forall r, c, k, k2 | 0 <= r < nodes && 0 <= c < nodes && 0 <= k < m && 0 <= k2 < m && k != k2 ::
      a(Place(m, r, k), Place(m, c, k2)) == Zero
  }

  lemma LastBlock(m: nat, f: CVector, c: nat)
    ensures Sum(Place(m, c, 0) + m, f) == Add(Sum(Place(m, c, 0), f), Sum(m, Part(f, m, c)))
  {
    var base := Place(m, c, 0);
    forall k | 0 <= k < m
      ensures Part(f, m, c)(k) == f(base + k)
    {
      assert Place(m, c, k) == base + k;
    }
    SumFrom(base, m, f, Part(f, m, c));
  }

  lemma {:induction false} SumBlocks(nodes: nat, m: nat, f: CVector, g: CVector)
    requires forall c | 0 <= c < nodes :: g(c) == Sum(m, Part(f, m, c))
    ensures Sum(Place(m, nodes, 0), f) == Sum(nodes, g)
  {
    if nodes > 0 {
      var up: nat := nodes - 1;
      SumBlocks(up, m, f, g);
      LastBlock(m, f, up);
      NextPlace(m, up);
      hide Place, Part;
    } else {
      assert Place(m, nodes, 0) == 0;
    }
  }

  lemma NextPlace(m: nat, c: nat)
    ensures Place(m, c + 1, 0) == Place(m, c, 0) + m
  {
  }

  lemma {:induction false} SumFrom(a: nat, b: nat, f: CVector, g: CVector)
    requires forall k | 0 <= k < b :: g(k) == f(a + k)
    ensures Sum(a + b, f) == Add(Sum(a, f), Sum(b, g))
  {
    if b > 0 {
      SumFrom(a, b - 1, f, g);
      assert a + b - 1 == a + (b - 1) && g(b - 1) == f(a + (b - 1));
    }
  }

  /** Diagonal blocks: the product involves one frequency only. */
  lemma DiagonalProduct(nodes: nat, m: nat, a: CMatrix, x: CVector, r: nat, k: nat)
    requires DiagonalBlocks(a, m, nodes) && r < nodes && k < m
    ensures Product(nodes * m, a, x, Place(m, r, k))
         == Sum(nodes, c => if c < 0 then Zero else Mul(a(Place(m, r, k), Place(m, c, k)), x(Place(m, c, k))))
  {
    var i := Place(m, r, k);
    var f: CVector := j => Mul(a(i, j), x(j));
    var g: CVector := c => if c < 0 then Zero else Mul(a(i, Place(m, c, k)), x(Place(m, c, k)));
    forall c | 0 <= c < nodes
      ensures g(c) == Sum(m, Part(f, m, c))
    {
      forall k2 | 0 <= k2 < m && k2 != k
        ensures Part(f, m, c)(k2) == Zero
      {
        assert a(i, Place(m, c, k2)) == Zero;
        ZeroTimes(x(Place(m, c, k2)));
      }
      SumSingle(m, k, Part(f, m, c));
    }
    SumBlocks(nodes, m, f, g);
    assert Place(m, nodes, 0) == nodes * m;
  }

  lemma ZeroTimes(b: Complex)
    ensures Mul(Zero, b) == Zero
  {
  }

  ghost function BlockDiagonal(a: CMatrix, m: nat, r: nat, c: nat): CVector {
    f => if f < 0 then Zero else a(Place(m, r, f), Place(m, c, f))
  }

  /** e and y are the expansions of a and x. */
  ghost predicate ExpandedSystem(nodes: nat, m: nat, a: CMatrix, x: CVector, e: CMatrix, y: CVector)
    requires m >= 2
  {
    var n := 2 * m - 2;
    && DiagonalBlocks(e, n, nodes)
    && (forall r, c, k | 0 <= r < nodes && 0 <= c < nodes && 0 <= k < n ::
          e(Place(n, r, k), Place(n, c, k)) == Extended(m, BlockDiagonal(a, m, r, c))(k))
    && (forall c, k | 0 <= c < nodes && 0 <= k < n :: y(Place(n, c, k)) == Extended(m, Part(x, m, c))(k))
  }

  /** Conjugated beyond the middle. */
  ghost function Side(m: nat, k: nat, c: Complex): Complex {
    if k < m then c else Conj(c)
  }

  function OneSided(m: nat, k: nat): (p: nat)
    requires m >= 2 && k < 2 * m - 2
    ensures p < m
  {
    if k < m then k else 2 * m - 2 - k
  }

  lemma ExpandedTerm(nodes: nat, m: nat, a: CMatrix, x: CVector, e: CMatrix, y: CVector, r: nat, k: nat, c: nat)
    requires m >= 2 && ExpandedSystem(nodes, m, a, x, e, y) && r < nodes && c < nodes && k < 2 * m - 2
    ensures var n, p := 2 * m - 2, OneSided(m, k);
      Mul(e(Place(n, r, k), Place(n, c, k)), y(Place(n, c, k)))
      == Side(m, k, Mul(a(Place(m, r, p), Place(m, c, p)), x(Place(m, c, p))))
  {
    hide Place, DiagonalBlocks;
    var n, p := 2 * m - 2, OneSided(m, k);
    assert BlockDiagonal(a, m, r, c)(p) == a(Place(m, r, p), Place(m, c, p));
    assert Extended(m, BlockDiagonal(a, m, r, c))(k) == Side(m, k, BlockDiagonal(a, m, r, c)(p));
    assert e(Place(n, r, k), Place(n, c, k)) == Side(m, k, a(Place(m, r, p), Place(m, c, p)));
    assert y(Place(n, c, k)) == Side(m, k, x(Place(m, c, p)));
    ConjMul(a(Place(m, r, p), Place(m, c, p)), x(Place(m, c, p)));
  }

  lemma SideOfSum(nodes: nat, m: nat, k: nat, f: CVector, g: CVector)
    requires forall c | 0 <= c < nodes :: g(c) == Side(m, k, f(c))
    ensures Sum(nodes, g) == Side(m, k, Sum(nodes, f))
  {
    if k < m { SumCongruence(nodes, f, g); } else { SumConj(nodes, f, g); }
  }

  /** The expanded matrix times the expanded vector is the expansion of the product
      of the one sided matrix and vector. */
  lemma ExpandedProduct(nodes: nat, m: nat, a: CMatrix, x: CVector, e: CMatrix, y: CVector, r: nat, k: nat)
    requires m >= 2 && DiagonalBlocks(a, m, nodes) && ExpandedSystem(nodes, m, a, x, e, y) && r < nodes && k < 2 * m - 2
    ensures var b: CVector := i => Product(nodes * m, a, x, i);
      Product(nodes * (2 * m - 2), e, y, Place(2 * m - 2, r, k)) == Extended(m, Part(b, m, r))(k)
  {
    var n, p := 2 * m - 2, OneSided(m, k);
    var b: CVector := i => Product(nodes * m, a, x, i);
    ExtendedIs(m, b, r, k);
    DiagonalProduct(nodes, n, e, y, r, k);
    DiagonalProduct(nodes, m, a, x, r, p);
    var g: CVector := c => if c < 0 then Zero else Mul(e(Place(n, r, k), Place(n, c, k)), y(Place(n, c, k)));
    var f: CVector := c => if c < 0 then Zero else Mul(a(Place(m, r, p), Place(m, c, p)), x(Place(m, c, p)));
    hide ExpandedSystem, DiagonalBlocks, Extended, Place, Side, Mul, Product;
    forall c | 0 <= c < nodes
      ensures g(c) == Side(m, k, f(c))
    {
      ExpandedTerm(nodes, m, a, x, e, y, r, k, c);
    }
    SideOfSum(nodes, m, k, f, g);
  }

  lemma ExtendedIs(m: nat, b: CVector, r: nat, k: nat)
    requires m >= 2 && k < 2 * m - 2
    ensures Extended(m, Part(b, m, r))(k) == Side(m, k, b(Place(m, r, OneSided(m, k))))
  {
  }

  ghost function Entries(a: array2<Complex>): CMatrix
    reads a
  {
    var rows, cols := a.Length0, a.Length1;
    var v := seq(rows, i requires 0 <= i < rows reads a => seq(cols, j requires 0 <= j < cols reads a => a[i, j]));
    (i, j) => if 0 <= i < |v| && 0 <= j < |v[i]| then v[i][j] else Zero
  }

  ghost function Items(v: seq<Complex>): CVector {
    i => if 0 <= i < |v| then v[i] else Zero
  }

  lemma EntryValue(a: array2<Complex>, m: nat, r: nat, k: nat, c: nat, k2: nat)
    ensures Entry(a, m, r, k, c, k2) == Entries(a)(Place(m, r, k), Place(m, c, k2))
  {
  }

  /** What the two expanding methods leave is an expanded system of equations. */
  lemma ExpansionsFit(a: array2<Complex>, e: array2<Complex>, v: seq<Complex>, w: seq<Complex>, nodes: nat, m: nat)
    requires Expanded(a, e, m, nodes) && |v| == nodes * m && |w| == nodes * (2 * m - 2)
    requires SectionsDone(v, w, m, 2 * m - 2, nodes, nodes, 0)
    ensures ExpandedSystem(nodes, m, Entries(a), Items(v), Entries(e), Items(w))
  {
    assert m >= 2;
    VectorFits(v, w, nodes, m);
    hide Entries, Expanded, BlocksDone, SectionsDone, Place;
    OffDiagonalsFit(a, e, nodes, m);
    hide DiagonalBlocks;
    var n := 2 * m - 2;
    forall r, c, k | 0 <= r < nodes && 0 <= c < nodes && 0 <= k < n
      ensures Entries(e)(Place(n, r, k), Place(n, c, k)) == Extended(m, BlockDiagonal(Entries(a), m, r, c))(k)
    {
      DiagonalFits(a, e, nodes, m, r, c, k);
    }
  }

  lemma OffDiagonalsFit(a: array2<Complex>, e: array2<Complex>, nodes: nat, m: nat)
    requires Expanded(a, e, m, nodes)
    ensures DiagonalBlocks(Entries(e), 2 * m - 2, nodes)
  {
    var n := 2 * m - 2;
    forall r, c, k, k2 | 0 <= r < nodes && 0 <= c < nodes && 0 <= k < n && 0 <= k2 < n && k != k2
      ensures Entries(e)(Place(n, r, k), Place(n, c, k2)) == Zero
    {
      OffDiagonalFits(a, e, nodes, m, r, k, c, k2);
    }
  }

  lemma VectorFits(v: seq<Complex>, w: seq<Complex>, nodes: nat, m: nat)
    requires m >= 2 && SectionsDone(v, w, m, 2 * m - 2, nodes, nodes, 0)
    ensures forall c, k | 0 <= c < nodes && 0 <= k < 2 * m - 2 ::
      Items(w)(Place(2 * m - 2, c, k)) == Extended(m, Part(Items(v), m, c))(k)
  {
    var n := 2 * m - 2;
    forall c, k | 0 <= c < nodes && 0 <= k < n
      ensures Items(w)(Place(n, c, k)) == Extended(m, Part(Items(v), m, c))(k)
    {
      assert w[Place(n, c, k)] == Extended(m, Section(v, m, c))(k);
    }
  }

  lemma OffDiagonalFits(a: array2<Complex>, e: array2<Complex>, nodes: nat, m: nat, r: nat, k: nat, c: nat, k2: nat)
    requires Expanded(a, e, m, nodes) && r < nodes && c < nodes && k < 2 * m - 2 && k2 < 2 * m - 2 && k != k2
    ensures Entries(e)(Place(2 * m - 2, r, k), Place(2 * m - 2, c, k2)) == Zero
  {
    var n := 2 * m - 2;
    EntryValue(e, n, r, k, c, k2);
    assert EntryIs(Diagonal(a, m, r, c), e, m, n, r, k, c, k2, Before(r, c, k, nodes, 0, 0));
  }

  lemma DiagonalFits(a: array2<Complex>, e: array2<Complex>, nodes: nat, m: nat, r: nat, c: nat, k: nat)
    requires Expanded(a, e, m, nodes) && r < nodes && c < nodes && k < 2 * m - 2
    ensures Entries(e)(Place(2 * m - 2, r, k), Place(2 * m - 2, c, k)) == Extended(m, BlockDiagonal(Entries(a), m, r, c))(k)
  {
    var n := 2 * m - 2;
    var p: nat := if k < m then k else n - k;
    EntryValue(e, n, r, k, c, k);
    EntryValue(a, m, r, p, c, p);
    assert EntryIs(Diagonal(a, m, r, c), e, m, n, r, k, c, k, Before(r, c, k, nodes, 0, 0));
    assert Diagonal(a, m, r, c)(p) == Entry(a, m, r, p, c, p);
  }
}
