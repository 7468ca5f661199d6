/** The harmonic frequencies the harmonic balance solver works with. */
module Harmonics {
  import opened BitReversal
  import opened Combinations

  // ---------------------------------------------------------------- order

  /** o is the least power of two that is at least m. */
  ghost predicate LeastPower(o: int, m: int) {
    && (exists b: nat :: Pow2(b) == o)
    && o >= m
    && forall b: nat :: Pow2(b) >= m ==> Pow2(b) >= o
  }

  /** The number of harmonics, enlarged so that the number of frequencies is a
      power of two.  Without harmonics to ask for there is no order either. */
  method CalcOrder(n: int) returns (order: int)
    ensures if n >= 1 then order >= 0 && LeastPower(2 * (order + 1), 2 * n) else order == -1
  {
    var wanted, o := n * 2, 1;
    ghost var b: nat := 0;
    while o < wanted
      invariant o == Pow2(b) >= 1 && (b > 0 ==> Pow2(b - 1) < wanted)
      decreases wanted - o
    {
      o := o * 2;
      b := b + 1;
    }
    hide LeastPower;
    if n >= 1 { LeastIs(b, wanted); }
    hide Pow2;
    order := o / 2 - 1;
  }

  lemma LeastIs(b: nat, m: int)
    requires m > 1 && Pow2(b) >= m && (b > 0 ==> Pow2(b - 1) < m)
    ensures LeastPower(Pow2(b), m) && Pow2(b) % 2 == 0 && Pow2(b) >= 2
  {
    assert b > 0;
    forall c: nat | Pow2(c) >= m
      ensures Pow2(c) >= Pow2(b)
    {
      if c < b { Pow2Grows(c, b - 1); } else { Pow2Grows(b, c); }
    }
  }

  // ----------------------------------------------------------- expansion

  /** Every base frequency, shifted. */
  function Shifted(shift: real, base: seq<real>): (r: seq<real>)
    ensures |r| == |base|
  {
    seq(|base|, k requires 0 <= k < |base| => shift + base[k])
  }

  /** Every base frequency, shifted by the harmonics lo to hi - 1 of f. */
  function Mixed(f: real, lo: int, hi: int, base: seq<real>): (r: seq<real>)
    decreases hi - lo
  {
    if hi <= lo then [] else Mixed(f, lo, hi - 1, base) + Shifted((hi - 1) as real * f, base)
  }

  lemma MixedNext(f: real, lo: int, i: int, base: seq<real>)
    requires lo <= i
    ensures Mixed(f, lo, i + 1, base) == Mixed(f, lo, i, base) + Shifted(i as real * f, base)
  {
    assert i + 1 - 1 == i;
  }

  lemma {:induction false} MixedLength(f: real, lo: int, hi: int, base: seq<real>)
    requires lo <= hi
    ensures |Mixed(f, lo, hi, base)| == (hi - lo) * |base|
    decreases hi - lo
  {
    if lo < hi {
      MixedLength(f, lo, hi - 1, base);
      assert (hi - lo) * |base| == (hi - 1 - lo) * |base| + |base|;
    }
  }

  /** The first frequency is mixed with DC only. */
  function Base(freqs: seq<real>): (r: seq<real>)
    ensures r != []
  {
    if freqs == [] then [0.0] else freqs
  }

  /** The two sided set: DC and the positive harmonics, then the negative ones. */
  function TwoSided(f: real, n: int, base: seq<real>): seq<real> {
    Mixed(f, 0, n + 2, base) + Mixed(f, -n, 0, base)
  }

  lemma TwoSidedLength(f: real, n: int, base: seq<real>)
    requires n >= 0
    ensures |TwoSided(f, n, base)| == (2 * n + 2) * |base|
  {
    MixedLength(f, 0, n + 2, base);
    MixedLength(f, -n, 0, base);
    assert (n + 2) * |base| + n * |base| == (2 * n + 2) * |base|;
  }

  /** Mixing with DC alone gives the harmonics themselves. */
  lemma {:induction false} MixedWithDc(f: real, lo: int, hi: int)
    requires lo <= hi
    ensures |Mixed(f, lo, hi, [0.0])| == hi - lo
    ensures forall k | 0 <= k < hi - lo :: Mixed(f, lo, hi, [0.0])[k] == (lo + k) as real * f
    decreases hi - lo
  {
    MixedLength(f, lo, hi, [0.0]);
    if lo < hi {
      MixedWithDc(f, lo, hi - 1);
      MixedLength(f, lo, hi - 1, [0.0]);
    }
  }

  /** The indices of the non-negative entries keep their order. */
  function NotNegative(s: seq<real>): seq<real> {
    if s == [] then []
    else if s[|s| - 1] < 0.0 then NotNegative(s[..|s| - 1])
    else NotNegative(s[..|s| - 1]) + [s[|s| - 1]]
  }

  lemma {:induction false} NotNegativeConcat(s: seq<real>, t: seq<real>)
    ensures NotNegative(s + t) == NotNegative(s) + NotNegative(t)
  {
    if t == [] {
      assert s + t == s;
    } else {
      var u := t[..|t| - 1];
      assert (s + t)[..|s + t| - 1] == s + u;
      NotNegativeConcat(s, u);
    }
  }

  lemma {:induction false} AllKept(s: seq<real>)
    requires forall x | x in s :: x >= 0.0
    ensures NotNegative(s) == s
  {
    if s != [] {
      var u := s[..|s| - 1];
      assert s[|s| - 1] in s && u + [s[|s| - 1]] == s;
      assert forall x | x in u :: x in s;
      AllKept(u);
    }
  }

  lemma {:induction false} NoneKept(s: seq<real>)
    requires forall x | x in s :: x < 0.0
    ensures NotNegative(s) == []
  {
    if s != [] {
      var u := s[..|s| - 1];
      assert s[|s| - 1] in s;
      assert forall x | x in u :: x in s;
      NoneKept(u);
    }
  }

  lemma SignOfHarmonic(i: int, f: real)
    requires f > 0.0
    ensures if i >= 0 then i as real * f >= 0.0 else i as real * f < 0.0
  {
  }

  /** s holds DC and the harmonics of f up to number n + 1, then those from -n on. */
  ghost predicate Tones(s: seq<real>, f: real, n: int) {
    n >= 0 && |s| == 2 * n + 2 && forall i | 0 <= i < 2 * n + 2 :: s[i] == (if i < n + 2 then i else i - (2 * n + 2)) as real * f
  }

  lemma TwoSidedTone(f: real, n: int)
    requires f > 0.0 && n >= 0
    ensures var s := TwoSided(f, n, [0.0]); Tones(s, f, n) && NotNegative(s) == s[..n + 2]
  {
    var up, down := Mixed(f, 0, n + 2, [0.0]), Mixed(f, -n, 0, [0.0]);
    assert TwoSided(f, n, [0.0]) == up + down;
    MixedWithDc(f, 0, n + 2);
    MixedWithDc(f, -n, 0);
    hide Mixed, NotNegative, TwoSided;
    TonesKept(f, n, up, down);
  }

  lemma TonesKept(f: real, n: int, up: seq<real>, down: seq<real>)
    requires f > 0.0 && n >= 0 && |up| == n + 2 && |down| == n
    requires forall k | 0 <= k < n + 2 :: up[k] == (0 + k) as real * f
    requires forall k | 0 <= k < n :: down[k] == (-n + k) as real * f
    ensures Tones(up + down, f, n) && NotNegative(up + down) == (up + down)[..n + 2]
  {
    UpKept(f, n + 2, up);
    DownDropped(f, n, down);
    SingleToneAt(f, n, up, down);
    hide NotNegative, Tones;
    NotNegativeConcat(up, down);
    Prefix(up, down);
  }

  lemma Prefix(up: seq<real>, down: seq<real>)
    ensures (up + down)[..|up|] == up == up + []
  {
  }

  lemma UpKept(f: real, n: int, up: seq<real>)
    requires f > 0.0 && n == |up| && forall k | 0 <= k < n :: up[k] == (0 + k) as real * f
    ensures NotNegative(up) == up
  {
    forall x | x in up
      ensures x >= 0.0
    {
      var i :| 0 <= i < |up| && up[i] == x;
      SignOfHarmonic(i, f);
    }
    AllKept(up);
  }

  lemma DownDropped(f: real, n: int, down: seq<real>)
    requires f > 0.0 && n == |down| && forall k | 0 <= k < n :: down[k] == (-n + k) as real * f
    ensures NotNegative(down) == []
  {
    forall x | x in down
      ensures x < 0.0
    {
      var i :| 0 <= i < |down| && down[i] == x;
      SignOfHarmonic(-n + i, f);
    }
    NoneKept(down);
  }

  lemma SingleToneAt(f: real, n: int, up: seq<real>, down: seq<real>)
    requires n >= 0 && |up| == n + 2 && |down| == n
    requires forall k | 0 <= k < n + 2 :: up[k] == (0 + k) as real * f
    requires forall k | 0 <= k < n :: down[k] == (-n + k) as real * f
    ensures Tones(up + down, f, n)
  {
    forall i | 0 <= i < 2 * n + 2
      ensures (up + down)[i] == (if i < n + 2 then i else i - (2 * n + 2)) as real * f
    {
      if i < n + 2 {
        assert up[i] == (0 + i) as real * f;
      } else {
        var k := i - (n + 2);
        assert down[k] == (-n + k) as real * f && -n + k == i - (2 * n + 2);
      }
    }
  }

  /** One positive excitation frequency: the frequencies kept are DC and the
      n + 1 harmonics, which come first in the two sided set of 2n + 2. */
  lemma SingleTone(f: real, n: int)
    requires f > 0.0 && n >= 0
    ensures var s := AllMixed([f], n); Tones(s, f, n) && NotNegative(s) == s[..n + 2] && |s| == 2 * |NotNegative(s)| - 2
  {
    TwoSidedTone(f, n);
    hide TwoSided, NotNegative;
    assert AllMixed([f], n) == TwoSided(f, n, [0.0]) by {
      assert [f][..0] == [] && Base(AllMixed([], n)) == [0.0];
    }
  }

  // ---------------------------------------------------- frequency collection

  /** An excitation in the circuit: a DC source or one with a frequency. */
  datatype Excitation = DcSource | AcSource(f: real)

  predicate Near(x: real, y: real, epsilon: real) {
    x - y < epsilon && y - x < epsilon
  }

  /** f is, up to epsilon, one of the frequencies. */
  ghost predicate Covered(f: real, ds: seq<real>, epsilon: real) {
    exists i :: 0 <= i < |ds| && Near(ds[i], f, epsilon)
  }

  ghost predicate Apart(ds: seq<real>, epsilon: real) {
    forall i, j | 0 <= i < j < |ds| :: !Near(ds[i], ds[j], epsilon)
  }

  /** The two sided set after all the frequencies were mixed in. */
  ghost function AllMixed(ds: seq<real>, n: int): seq<real> {
    if ds == [] then [] else TwoSided(ds[|ds| - 1], n, Base(AllMixed(ds[..|ds| - 1], n)))
  }

  /** There are 2n + 2 frequencies for each excitation frequency, multiplied. */
  lemma {:induction false} AllMixedLength(ds: seq<real>, n: nat)
    ensures ds == [] ==> AllMixed(ds, n) == []
    ensures ds != [] ==> |AllMixed(ds, n)| == Power(2 * n + 2, |ds|)
    ensures |Base(AllMixed(ds, n))| == Power(2 * n + 2, |ds|)
  {
    if ds != [] {
      var up := ds[..|ds| - 1];
      AllMixedLength(up, n);
      TwoSidedLength(ds[|ds| - 1], n, Base(AllMixed(up, n)));
      PowerPositive(2 * n + 2, |ds|);
    }
  }

  /** The one sided set after all the frequencies were mixed in. */
  ghost function AllRaised(ds: seq<real>, n: int): seq<real> {
    if ds == [] then [] else Mixed(ds[|ds| - 1], 0, 2 * n + 2, Base(AllRaised(ds[..|ds| - 1], n)))
  }

  lemma {:induction false} AllRaisedLength(ds: seq<real>, n: nat)
    ensures ds != [] ==> |AllRaised(ds, n)| == Power(2 * n + 2, |ds|)
    ensures |Base(AllRaised(ds, n))| == Power(2 * n + 2, |ds|)
  {
    if ds != [] {
      var up := ds[..|ds| - 1];
      AllRaisedLength(up, n);
      MixedLength(ds[|ds| - 1], 0, 2 * n + 2, Base(AllRaised(up, n)));
      PowerPositive(2 * n + 2, |ds|);
    }
  }

  /** Around harmonic lo + h stand the base frequencies, shifted by it. */
  lemma {:induction false} MixedAt(f: real, lo: int, hi: int, base: seq<real>, h: nat, k: nat)
    requires lo <= hi && h < hi - lo && k < |base|
    ensures Place(h, |base|, k) < |Mixed(f, lo, hi, base)|
    ensures Mixed(f, lo, hi, base)[Place(h, |base|, k)] == Tone(lo + h, f) + base[k]
    decreases hi - lo
  {
    var front, last := Mixed(f, lo, hi - 1, base), Shifted((hi - 1) as real * f, base);
    MixedLength(f, lo, hi - 1, base);
    assert Mixed(f, lo, hi, base) == front + last;
    if h < hi - lo - 1 {
      MixedAt(f, lo, hi - 1, base, h, k);
    } else {
      assert Place(h, |base|, k) == |front| + k;
      assert last[k] == (hi - 1) as real * f + base[k];
    }
  }

  lemma TwoSidedAt(f: real, n: nat, base: seq<real>, h: nat, k: nat)
    requires h < 2 * n + 2 && k < |base|
    ensures Place(h, |base|, k) < |TwoSided(f, n, base)|
    ensures TwoSided(f, n, base)[Place(h, |base|, k)] == Tone(Harmonic(h, n), f) + base[k]
  {
    MixedLength(f, 0, n + 2, base);
    var up, down := Mixed(f, 0, n + 2, base), Mixed(f, -(n as int), 0, base);
    assert TwoSided(f, n, base) == up + down;
    hide Mixed, TwoSided, Tone, Place;
    if h < n + 2 {
      MixedAt(f, 0, n + 2, base, h, k);
    } else {
      var g: nat := h - (n + 2);
      MixedAt(f, -(n as int), 0, base, g, k);
      SecondPart(g, n + 2, |base|, k);
      assert (up + down)[|up| + Place(g, |base|, k)] == down[Place(g, |base|, k)];
    }
  }

  lemma SecondPart(g: nat, m: nat, l: nat, k: nat)
    ensures Place(g + m, l, k) == m * l + Place(g, l, k)
  {
  }

  lemma LastMixed(ds: seq<real>, n: nat)
    requires ds != [] && AllMixed(ds, n) != []
    ensures Base(AllMixed(ds, n)) == TwoSided(ds[|ds| - 1], n, Base(AllMixed(ds[..|ds| - 1], n)))
  {
  }

  lemma LastRaised(ds: seq<real>, n: nat)
    requires ds != [] && AllRaised(ds, n) != []
    ensures Base(AllRaised(ds, n)) == Mixed(ds[|ds| - 1], 0, 2 * n + 2, Base(AllRaised(ds[..|ds| - 1], n)))
  {
  }

  lemma NoTones(n: nat)
    ensures Power(2 * n + 2, 0) == 1
    ensures Base(AllMixed([], n)) == [0.0] && Base(AllRaised([], n)) == [0.0]
    ensures Combined([], n, 0) == 0.0 == Summed([], n, 0)
  {
  }

  lemma CombinedStep(ds: seq<real>, n: nat, base: seq<real>, h: nat, k: nat)
    requires ds != [] && |base| == Power(2 * n + 2, |ds| - 1) && h < 2 * n + 2 && k < |base|
    ensures var j, e := Place(h, |base|, k), |ds| - 1;
      && (base[k] == Combined(ds[..e], n, k) ==> Tone(Harmonic(h, n), ds[e]) + base[k] == Combined(ds, n, j))
      && (base[k] == Summed(ds[..e], n, k) ==> Tone(h, ds[e]) + base[k] == Summed(ds, n, j))
  {
    hide DigitAt, Tone, Harmonic, Place, Power;
    HighDigit(h, k, 2 * n + 2, |ds| - 1);
    CombinedLow(ds[..|ds| - 1], n, h, k, |ds| - 1);
  }

  /** What stands at place j: the digits of j in base 2n + 2 choose a harmonic of every
      tone, in the order 0 to n + 1 and -n to -1, and these are summed. */
  lemma {:induction false} AllMixedAt(ds: seq<real>, n: nat, j: nat)
    requires j < Power(2 * n + 2, |ds|)
    ensures j < |Base(AllMixed(ds, n))| && Base(AllMixed(ds, n))[j] == Combined(ds, n, j)
    decreases |ds|
  {
    hide TwoSided, AllMixed, Base, Place, Power, Tone, Harmonic, Combined;
    AllMixedLength(ds, n);
    if ds == [] {
      NoTones(n);
    } else {
      PowerPositive(2 * n + 2, |ds|);
      LastMixed(ds, n);
      var e, up := |ds| - 1, ds[..|ds| - 1];
      var h, k := SplitNumber(j, 2 * n + 2, e);
      AllMixedAt(up, n, k);
      AllMixedLength(up, n);
      TwoSidedAt(ds[e], n, Base(AllMixed(up, n)), h, k);
      CombinedStep(ds, n, Base(AllMixed(up, n)), h, k);
    }
  }

  /** In the one sided set the digits are the harmonics themselves. */
  lemma {:induction false} AllRaisedAt(ds: seq<real>, n: nat, j: nat)
    requires j < Power(2 * n + 2, |ds|)
    ensures j < |Base(AllRaised(ds, n))| && Base(AllRaised(ds, n))[j] == Summed(ds, n, j)
    decreases |ds|
  {
    hide Mixed, AllRaised, Base, Place, Power, Tone, Harmonic, Summed;
    AllRaisedLength(ds, n);
    if ds == [] {
      NoTones(n);
    } else {
      PowerPositive(2 * n + 2, |ds|);
      LastRaised(ds, n);
      var e, up := |ds| - 1, ds[..|ds| - 1];
      var h, k := SplitNumber(j, 2 * n + 2, e);
      AllRaisedAt(up, n, k);
      AllRaisedLength(up, n);
      MixedAt(ds[e], 0, 2 * n + 2, Base(AllRaised(up, n)), h, k);
      CombinedStep(ds, n, Base(AllRaised(up, n)), h, k);
    }
  }

  lemma OneTone(ds: seq<real>, f: real, n: nat)
    ensures AllMixed(ds + [f], n) == TwoSided(f, n, Base(AllMixed(ds, n)))
    ensures AllRaised(ds + [f], n) == Mixed(f, 0, 2 * n + 2, Base(AllRaised(ds, n)))
  {
    var more := ds + [f];
    assert more[..|more| - 1] == ds && more[|more| - 1] == f;
  }

  lemma BothEmpty(ds: seq<real>, n: nat)
    ensures AllMixed(ds, n) == [] <==> ds == []
    ensures AllRaised(ds, n) == [] <==> ds == []
  {
    AllMixedLength(ds, n);
    AllRaisedLength(ds, n);
    PowerPositive(2 * n + 2, |ds|);
  }

  lemma CoveredAnyway(es: seq<Excitation>, ds: seq<real>, epsilon: real)
    requires AllCovered(es, [], epsilon)
    ensures AllCovered(es, ds, epsilon)
  {
    assert forall e | e in es && e.AcSource? && e.f != 0.0 :: !Covered(e.f, [], epsilon);
  }

  /** Both sets, place by place, as the digits of the place say. */
  ghost predicate AllCombined(ds: seq<real>, n: nat, neg: seq<real>, pos: seq<real>) {
    && |neg| == |pos| == Power(2 * n + 2, |ds|)
    && forall j | 0 <= j < |neg| :: neg[j] == Combined(ds, n, j) && pos[j] == Summed(ds, n, j)
  }

  lemma BothSets(ds: seq<real>, n: nat)
    requires ds != []
    ensures AllCombined(ds, n, AllMixed(ds, n), AllRaised(ds, n))
  {
    AllMixedLength(ds, n);
    AllRaisedLength(ds, n);
    PowerPositive(2 * n + 2, |ds|);
    hide AllMixed, AllRaised, Combined, Summed, Power;
    forall j | 0 <= j < Power(2 * n + 2, |ds|)
      ensures AllMixed(ds, n)[j] == Combined(ds, n, j) && AllRaised(ds, n)[j] == Summed(ds, n, j)
    {
      AllMixedAt(ds, n, j);
      AllRaisedAt(ds, n, j);
    }
  }

  /** r holds the entries of s at the places js, in order. */
  ghost predicate Picked(s: seq<real>, js: seq<nat>, r: seq<real>) {
    |js| == |r| && forall i | 0 <= i < |js| :: js[i] < |s| && r[i] == s[js[i]]
  }

  ghost predicate Increasing(js: seq<nat>) {
    forall i, k | 0 <= i < k < |js| :: js[i] < js[k]
  }

  /** The places are those of the entries that are not negative. */
  ghost predicate Places(s: seq<real>, js: seq<nat>) {
    forall j | 0 <= j < |s| :: j in js <==> s[j] >= 0.0
  }

  lemma LastPicked(s: seq<real>, few: seq<nat>, r: seq<real>)
    requires s != [] && s[|s| - 1] >= 0.0
    requires Picked(s[..|s| - 1], few, r) && Increasing(few) && Places(s[..|s| - 1], few)
    ensures Picked(s, few + [|s| - 1], r + [s[|s| - 1]]) && Increasing(few + [|s| - 1]) && Places(s, few + [|s| - 1])
  {
    var last := |s| - 1;
    forall j | 0 <= j < |s|
      ensures j in few + [last] <==> s[j] >= 0.0
    {
      if j < last { assert j in few <==> s[..last][j] >= 0.0; }
    }
  }

  lemma LastLeftOut(s: seq<real>, few: seq<nat>, r: seq<real>)
    requires s != [] && s[|s| - 1] < 0.0
    requires Picked(s[..|s| - 1], few, r) && Places(s[..|s| - 1], few)
    ensures Picked(s, few, r) && Places(s, few)
  {
    var last := |s| - 1;
    assert last !in few by { assert forall i | 0 <= i < |few| :: few[i] < last; }
    forall j | 0 <= j < |s|
      ensures j in few <==> s[j] >= 0.0
    {
      if j < last { assert j in few <==> s[..last][j] >= 0.0; }
    }
  }

  /** The entries kept: exactly those that are not negative, in their order. */
  lemma {:induction false} NotNegativeAre(s: seq<real>) returns (js: seq<nat>)
    ensures Picked(s, js, NotNegative(s)) && Increasing(js) && Places(s, js)
    decreases |s|
  {
    if s == [] {
      js := [];
    } else {
      hide Picked, Increasing, Places;
      var few := NotNegativeAre(s[..|s| - 1]);
      if s[|s| - 1] >= 0.0 {
        js := few + [|s| - 1];
        LastPicked(s, few, NotNegative(s[..|s| - 1]));
      } else {
        js := few;
        LastLeftOut(s, few, NotNegative(s[..|s| - 1]));
      }
    }
  }

  /** Every excitation with a frequency is, up to epsilon, one of the frequencies. */
  ghost predicate AllCovered(es: seq<Excitation>, ds: seq<real>, epsilon: real) {
    forall e | e in es && e.AcSource? && e.f != 0.0 :: Covered(e.f, ds, epsilon)
  }

  /** The frequencies are those of excitations. */
  ghost predicate AllExcited(es: seq<Excitation>, ds: seq<real>) {
    forall d | d in ds :: AcSource(d) in es
  }

  class Frequencies {
    var negfreqs: seq<real>
    var posfreqs: seq<real>
    var rfreqs: seq<real>
    var dfreqs: seq<real>
    var ndfreqs: seq<int>
    var lnfreqs: nat
    var nlfreqs: nat

    constructor ()
      ensures negfreqs == posfreqs == rfreqs == dfreqs == [] && ndfreqs == [] && lnfreqs == nlfreqs == 0
    {
      negfreqs, posfreqs, rfreqs, dfreqs, ndfreqs, lnfreqs, nlfreqs := [], [], [], [], [], 0, 0;
    }

    /** The harmonics lo to hi - 1 of f, mixed with the base frequencies. */
    static method Harmonics(f: real, lo: int, hi: int, base: seq<real>) returns (r: seq<real>)
      ensures r == Mixed(f, lo, hi, base)
    {
      r := [];
      if lo >= hi { return; }
      for i := lo to hi
        invariant r == Mixed(f, lo, i, base)
      {
        ghost var before := r;
        for k := 0 to |base|
          invariant r == before + Shifted(i as real * f, base)[..k]
        {
          r := r + [i as real * f + base[k]];
        }
        assert Shifted(i as real * f, base)[..|base|] == Shifted(i as real * f, base);
        MixedNext(f, lo, i, base);
      }
    }

    /** The harmonics lo to hi - 1 of the first frequency. */
    static method FirstHarmonics(f: real, lo: int, hi: int) returns (r: seq<real>)
      ensures r == Mixed(f, lo, hi, [0.0])
    {
      r := [];
      if lo >= hi { return; }
      for i := lo to hi
        invariant r == Mixed(f, lo, i, [0.0])
      {
        assert Shifted(i as real * f, [0.0]) == [i as real * f];
        r := r + [i as real * f];
        MixedNext(f, lo, i, [0.0]);
      }
    }

    /** One more frequency: the sets so far are repeated around each harmonic. */
    method ExpandFrequencies(f: real, n: int)
      requires negfreqs == [] <==> posfreqs == []
      modifies this`negfreqs, this`posfreqs
      ensures negfreqs == TwoSided(f, n, Base(old(negfreqs)))
      ensures posfreqs == Mixed(f, 0, 2 * n + 2, Base(old(posfreqs)))
    {
      var up, down;
      if |negfreqs| > 0 {
        up := Harmonics(f, 0, n + 2, negfreqs);
        down := Harmonics(f, -n, 0, negfreqs);
        posfreqs := Harmonics(f, 0, 2 * n + 2, posfreqs);
      } else {
        up := FirstHarmonics(f, 0, n + 2);
        down := FirstHarmonics(f, -n, 0);
        posfreqs := FirstHarmonics(f, 0, 2 * n + 2);
      }
      negfreqs := up + down;
    }

    /** What collecting the frequencies leaves behind. */
    ghost predicate Collected(n: nat)
      reads this
    {
      negfreqs == AllMixed(dfreqs, n) && posfreqs == AllRaised(dfreqs, n)
    }

    /** A frequency found for the first time is mixed in. */
    method Include(f: real, n: nat)
      requires Collected(n)
      modifies this`negfreqs, this`posfreqs, this`dfreqs
      ensures Collected(n) && dfreqs == old(dfreqs) + [f]
    {
      BothEmpty(dfreqs, n);
      OneTone(dfreqs, f, n);
      hide AllMixed, AllRaised, TwoSided, Mixed;
      dfreqs := dfreqs + [f];
      ExpandFrequencies(f, n);
    }

    /** The first frequency close to f, if any. */
    method FindFrequency(f: real, epsilon: real) returns (found: bool)
      ensures found <==> Covered(f, dfreqs, epsilon)
      ensures found <==> exists i :: 0 <= i < |dfreqs| && -epsilon < dfreqs[i] - f < epsilon
    {
      for i := 0 to |dfreqs|
        invariant forall j | 0 <= j < i :: !Near(dfreqs[j], f, epsilon)
      {
        if Near(dfreqs[i], f, epsilon) { return true; }
      }
      return false;
    }

    /** Every excitation with a frequency is covered by one of the frequencies,
        which are all apart; without any, the analysis has its own frequency. */
    method CollectFrequencies(excitations: seq<Excitation>, own: real, wanted: nat, epsilon: real) returns (ghost order: nat)
      requires wanted >= 1 && epsilon > 0.0
      modifies this
      ensures LeastPower(2 * (order + 1), 2 * wanted)
      ensures negfreqs == AllMixed(dfreqs, order) && posfreqs == AllRaised(dfreqs, order) && rfreqs == NotNegative(negfreqs)
      ensures nlfreqs == |negfreqs| == Power(2 * order + 2, |dfreqs|) && lnfreqs == |rfreqs|
      ensures |ndfreqs| == |dfreqs| && forall i | 0 <= i < |ndfreqs| :: ndfreqs[i] == 2 * order + 2
      ensures AllCombined(dfreqs, order, negfreqs, posfreqs)
      ensures Apart(dfreqs, epsilon) && |dfreqs| >= 1
      ensures AllCovered(excitations, dfreqs, epsilon)
      ensures AllExcited(excitations, dfreqs) || dfreqs == [own]
    {
      var n := CalcOrder(wanted);
      order := n;
      negfreqs, posfreqs, rfreqs, dfreqs := [], [], [], [];
      assert Collected(n);
      hide LeastPower, Near, Covered, AllMixed, AllRaised, AllCovered, AllExcited, AllCombined;
      CollectExcitations(excitations, n, epsilon);
      ghost var ds := dfreqs;
      IncludeOwn(own, n);
      assert ds == [] ==> AllCovered(excitations, dfreqs, epsilon) by {
        if ds == [] { CoveredAnyway(excitations, dfreqs, epsilon); }
      }
      BuildLengths(n);
    }

    /** The dimension of every tone, and the positive frequencies. */
    method BuildLengths(n: nat)
      requires Collected(n) && dfreqs != [] && rfreqs == []
      modifies this`ndfreqs, this`rfreqs, this`lnfreqs, this`nlfreqs
      ensures |ndfreqs| == |dfreqs| && forall i | 0 <= i < |ndfreqs| :: ndfreqs[i] == 2 * n + 2
      ensures rfreqs == NotNegative(negfreqs) && lnfreqs == |rfreqs|
      ensures nlfreqs == |negfreqs| == Power(2 * n + 2, |dfreqs|) && AllCombined(dfreqs, n, negfreqs, posfreqs)
    {
      hide AllMixed, AllRaised, NotNegative, Power, Combined, Summed;
      ndfreqs := seq(|dfreqs|, _ => (n + 1) * 2);
      KeepPositive();
      BothSets(dfreqs, n);
    }

    /** Without any excitation the analysis has its own frequency. */
    method IncludeOwn(own: real, n: nat)
      requires Collected(n)
      modifies this`negfreqs, this`posfreqs, this`dfreqs
      ensures Collected(n) && dfreqs == if old(dfreqs) == [] then [own] else old(dfreqs)
    {
      BothEmpty(dfreqs, n);
      if |negfreqs| == 0 {
        Include(own, n);
      }
    }

    method CollectExcitations(excitations: seq<Excitation>, n: nat, epsilon: real)
      requires Collected(n) && dfreqs == [] && epsilon > 0.0
      modifies this`negfreqs, this`posfreqs, this`dfreqs
      ensures Collected(n) && Apart(dfreqs, epsilon)
      ensures AllCovered(excitations, dfreqs, epsilon) && AllExcited(excitations, dfreqs)
    {
      for q := 0 to |excitations|
        invariant Collected(n) && Apart(dfreqs, epsilon)
        invariant AllCovered(excitations[..q], dfreqs, epsilon) && AllExcited(excitations, dfreqs)
      {
        var c := excitations[q];
        assert excitations[..q + 1] == excitations[..q] + [c];
        if c.AcSource? && c.f != 0.0 {
          var found := FindFrequency(c.f, epsilon);
          if !found {
            ghost var ds := dfreqs;
            Include(c.f, n);
            StillCovered(ds, c.f, epsilon);
            assert Near(dfreqs[|ds|], c.f, epsilon);
          }
        }
      }
      assert excitations[..|excitations|] == excitations;
    }

    method KeepPositive()
      requires rfreqs == []
      modifies this`rfreqs, this`lnfreqs, this`nlfreqs
      ensures rfreqs == NotNegative(negfreqs) && lnfreqs == |rfreqs| && nlfreqs == |negfreqs|
    {
      for i := 0 to |negfreqs|
        invariant rfreqs == NotNegative(negfreqs[..i])
      {
        assert negfreqs[..i + 1][..i] == negfreqs[..i];
        if negfreqs[i] < 0.0 { continue; }
        rfreqs := rfreqs + [negfreqs[i]];
      }
      assert negfreqs[..|negfreqs|] == negfreqs;
      lnfreqs := |rfreqs|;
      nlfreqs := |negfreqs|;
    }
  }

  lemma StillCovered(ds: seq<real>, f: real, epsilon: real)
    ensures forall g | Covered(g, ds, epsilon) :: Covered(g, ds + [f], epsilon)
    ensures Apart(ds, epsilon) && !Covered(f, ds, epsilon) ==> Apart(ds + [f], epsilon)
  {
    forall g | Covered(g, ds, epsilon)
      ensures Covered(g, ds + [f], epsilon)
    {
      var i :| 0 <= i < |ds| && Near(ds[i], g, epsilon);
      assert Near((ds + [f])[i], g, epsilon);
    }
  }
}
