/** Numbers as combinations of harmonics: one digit for every tone. */
module Combinations {

  function Power(b: nat, e: nat): nat {
    if e == 0 then 1 else b * Power(b, e - 1)
  }

  lemma {:induction false} PowerPositive(b: nat, e: nat)
    requires b > 0
    ensures Power(b, e) > 0
  {
    if e > 0 {
      PowerPositive(b, e - 1);
      assert b * Power(b, e - 1) >= Power(b, e - 1);
    }
  }

  function Lowest(j: nat, b: nat): nat
    requires b > 0
  {
    j % b
  }

  function Others(j: nat, b: nat): nat
    requires b > 0
  {
    j / b
  }

  /** Digit i of j in base b, the lowest one first. */
  function DigitAt(j: nat, b: nat, i: nat): nat
    requires b > 0
    decreases i
  {
    if i == 0 then Lowest(j, b) else DigitAt(Others(j, b), b, i - 1)
  }

  /** Place k of part h, when every part has p places. */
  function Place(h: nat, p: nat, k: nat): nat { h * p + k }

  /** The harmonic a digit stands for: 0 to n + 1, then -n to -1. */
  function Harmonic(d: nat, n: nat): int {
    if d <= n + 1 then d else d - (2 * n + 2)
  }

  /** Harmonic k of the frequency f. */
  function Tone(k: int, f: real): real { k as real * f }

  /** The frequency at place j of the two sided set: the harmonics of all the tones
      that the digits of j stand for, summed. */
  ghost function Combined(ds: seq<real>, n: nat, j: nat): real {
    if ds == [] then 0.0
    else
      var i := |ds| - 1;
      Combined(ds[..i], n, j) + Tone(Harmonic(DigitAt(j, 2 * n + 2, i), n), ds[i])
  }

  /** The frequency at place j of the one sided set: the digits are the harmonics. */
  ghost function Summed(ds: seq<real>, n: nat, j: nat): real {
    if ds == [] then 0.0
    else
      var i := |ds| - 1;
      Summed(ds[..i], n, j) + Tone(DigitAt(j, 2 * n + 2, i), ds[i])
  }

  // ----------------------------------------------------------------- digits

  lemma OrderedTimes(x: int, y: int, b: nat)
    ensures x >= y ==> x * b >= y * b
    ensures x > y ==> x * b >= y * b + b
  {
    if x >= y { assert (x - y) * b >= 0; }
    if x > y { assert (x - y - 1) * b >= 0; }
  }

  lemma Quotient(j: nat, q: nat, r: nat, b: nat)
    requires r < b && j == q * b + r
    ensures Others(j, b) == q && Lowest(j, b) == r
  {
    var x, y := j / b, j % b;
    assert j == x * b + y;
    OrderedTimes(x, q, b);
    OrderedTimes(q, x, b);
  }

  lemma Divided(k: nat, b: nat)
    requires b > 0
    ensures k == Others(k, b) * b + Lowest(k, b) && Lowest(k, b) < b
  {
  }

  lemma Carried(h: nat, p: nat, k: nat, b: nat)
    requires b > 0
    ensures Lowest(Place(h, b * p, k), b) == Lowest(k, b) && Others(Place(h, b * p, k), b) == Place(h, p, Others(k, b))
  {
    Divided(k, b);
    var x, y := Others(k, b), Lowest(k, b);
    hide Others, Lowest;
    assert h * (b * p) + (x * b + y) == (h * p + x) * b + y;
    Quotient(Place(h, b * p, k), Place(h, p, x), y, b);
  }

  lemma LessAfterDivision(k: nat, b: nat, p: nat)
    requires b > 0 && k < b * p
    ensures Others(k, b) < p
  {
    Divided(k, b);
    OrderedTimes(Others(k, b), p, b);
  }

  lemma PowerStep(b: nat, e: nat)
    requires e > 0
    ensures Power(b, e) == b * Power(b, e - 1)
  {
  }

  lemma {:induction false} LowDigit(h: nat, k: nat, b: nat, e: nat, i: nat)
    requires b > 0 && k < Power(b, e) && i < e
    ensures DigitAt(Place(h, Power(b, e), k), b, i) == DigitAt(k, b, i)
    decreases i
  {
    hide Others, Lowest, Place, Power;
    PowerStep(b, e);
    Carried(h, Power(b, e - 1), k, b);
    if i > 0 {
      LessAfterDivision(k, b, Power(b, e - 1));
      LowDigit(h, Others(k, b), b, e - 1, i - 1);
    }
  }

  lemma {:induction false} HighDigit(h: nat, k: nat, b: nat, e: nat)
    requires h < b && k < Power(b, e)
    ensures DigitAt(Place(h, Power(b, e), k), b, e) == h
    decreases e
  {
    if e == 0 {
      assert k == 0 && Place(h, 1, k) == h;
    } else {
      hide Others, Lowest, Place, Power;
      PowerStep(b, e);
      Carried(h, Power(b, e - 1), k, b);
      LessAfterDivision(k, b, Power(b, e - 1));
      HighDigit(h, Others(k, b), b, e - 1);
    }
  }

  lemma {:induction false} DigitBelow(j: nat, b: nat, i: nat)
    requires b > 0
    ensures DigitAt(j, b, i) < b
    decreases i
  {
    if i > 0 { DigitBelow(Others(j, b), b, i - 1); }
  }

  /** A number below b to the power of e is determined by its first e digits. */
  lemma {:induction false} SameDigits(j: nat, k: nat, b: nat, e: nat)
    requires b > 0 && j < Power(b, e) && k < Power(b, e)
    requires forall i | 0 <= i < e :: DigitAt(j, b, i) == DigitAt(k, b, i)
    ensures j == k
    decreases e
  {
    if e > 0 {
      hide Others, Lowest, Power;
      PowerStep(b, e);
      LessAfterDivision(j, b, Power(b, e - 1));
      LessAfterDivision(k, b, Power(b, e - 1));
      forall i | 0 <= i < e - 1
        ensures DigitAt(Others(j, b), b, i) == DigitAt(Others(k, b), b, i)
      {
        var next := i + 1;
        assert DigitAt(j, b, next) == DigitAt(k, b, next);
      }
      SameDigits(Others(j, b), Others(k, b), b, e - 1);
      assert DigitAt(j, b, 0) == DigitAt(k, b, 0);
      Divided(j, b);
      Divided(k, b);
    }
  }

  lemma SplitNumber(j: nat, b: nat, e: nat) returns (h: nat, k: nat)
    requires b > 0 && j < Power(b, e + 1)
    ensures j == Place(h, Power(b, e), k) && h < b && k < Power(b, e)
  {
    var p := Power(b, e);
    PowerPositive(b, e);
    PowerStep(b, e + 1);
    hide Power;
    Divided(j, p);
    LessAfterDivision(j, p, b);
    h, k := Others(j, p), Lowest(j, p);
    hide Others, Lowest;
  }

  // ------------------------------------------------------------ combinations

  /** The harmonics at place j, one for each of m tones, are those of ks. */
  ghost predicate Stands(ks: seq<int>, n: nat, j: nat) {
    j < Power(2 * n + 2, |ks|) && forall i | 0 <= i < |ks| :: Harmonic(DigitAt(j, 2 * n + 2, i), n) == ks[i]
  }

  /** Every combination of harmonics from -n to n + 1 stands at one place only. */
  lemma {:induction false} EveryCombinationOnce(ks: seq<int>, n: nat) returns (j: nat)
    requires forall k | k in ks :: -(n as int) <= k <= n + 1
    ensures Stands(ks, n, j) && forall l: nat :: Stands(ks, n, l) ==> l == j
    decreases |ks|
  {
    if ks == [] {
      j := 0;
    } else {
      var e := |ks| - 1;
      assert ks[e] in ks && forall k | k in ks[..e] :: k in ks;
      var low := EveryCombinationOnce(ks[..e], n);
      j := OneMore(ks, n, low);
    }
    forall l: nat | Stands(ks, n, l)
      ensures l == j
    {
      StandsOnce(ks, n, j, l);
    }
  }

  lemma OneMore(ks: seq<int>, n: nat, low: nat) returns (j: nat)
    requires ks != [] && -(n as int) <= ks[|ks| - 1] <= n + 1 && Stands(ks[..|ks| - 1], n, low)
    ensures Stands(ks, n, j)
  {
    var b, e := 2 * n + 2, |ks| - 1;
    var h: nat := if ks[e] >= 0 then ks[e] else ks[e] + b;
    hide DigitAt, Power;
    j := Place(h, Power(b, e), low);
    PowerStep(b, e + 1);
    Raised(h, Power(b, e), low, b);
    HighDigit(h, low, b, e);
    forall i | 0 <= i < e
      ensures Harmonic(DigitAt(j, b, i), n) == ks[i]
    {
      LowDigit(h, low, b, e, i);
    }
  }

  lemma Raised(h: nat, p: nat, k: nat, b: nat)
    requires h < b && k < p
    ensures Place(h, p, k) < b * p
  {
    OrderedTimes(b, h, p);
  }

  lemma StandsOnce(ks: seq<int>, n: nat, j: nat, l: nat)
    requires Stands(ks, n, j) && Stands(ks, n, l)
    ensures l == j
  {
    var b := 2 * n + 2;
    forall i | 0 <= i < |ks|
      ensures DigitAt(j, b, i) == DigitAt(l, b, i)
    {
      DigitBelow(j, b, i);
      DigitBelow(l, b, i);
      assert Harmonic(DigitAt(j, b, i), n) == ks[i] == Harmonic(DigitAt(l, b, i), n);
    }
    SameDigits(j, l, b, |ks|);
  }

  lemma {:induction false} CombinedLow(ds: seq<real>, n: nat, h: nat, k: nat, e: nat)
    requires |ds| <= e && k < Power(2 * n + 2, e)
    ensures Combined(ds, n, Place(h, Power(2 * n + 2, e), k)) == Combined(ds, n, k)
    ensures Summed(ds, n, Place(h, Power(2 * n + 2, e), k)) == Summed(ds, n, k)
    decreases |ds|
  {
    if ds != [] {
      hide DigitAt, Power, Place, Tone, Harmonic;
      CombinedLow(ds[..|ds| - 1], n, h, k, e);
      LowDigit(h, k, 2 * n + 2, e, |ds| - 1);
    }
  }
}
