/** Slopes of the area functions and of powers. */
module AreaSlopes {
  import opened Arithmetic
  import opened DualNumbers
  import opened Expressions
  import opened Options
  import opened Simplify
  import opened Slopes

  // ---------------------------------------------------------- area functions

  lemma RootSlope(v: real, d: real, s: real, u: real)
    requires s > 0.0 && v + s != 0.0 && u == Mul(v, d) + Mul(d, v)
    ensures Div(d + Div(Mul(0.5, u), s), v + s) == Div(d, s)
  {
    var z := Div(d, s);
    DivTimes(d, s);
    assert Mul(0.5, u) == v * d;
    assert v * z * s == v * (z * s);
    DivIs(Mul(0.5, u), s, v * z);
    assert z * (v + s) == v * z + z * s;
    DivIs(d + v * z, v + s, z);
  }

  lemma ArSinhSlope(f: Elementary, p: Dual)
    requires Lawful(f) && DArSinh(f, p).Some?
    ensures Mul(p.v, p.v) + 1.0 > 0.0 && f.sqrt(Mul(p.v, p.v) + 1.0) > 0.0
    ensures DArSinh(f, p).value.d == Div(p.d, f.sqrt(Mul(p.v, p.v) + 1.0))
  {
    var u := DAdd(DMul(p, p), Fixed(1.0));
    assert Mul(p.v, p.v) >= 0.0;
    SqrtSlope(f, u);
    var s := DSqrt(f, u).value;
    LnSlope(f, DAdd(p, s));
    RootSlope(p.v, p.d, s.v, u.d);
  }

  lemma ArCoshSlope(f: Elementary, p: Dual)
    requires Lawful(f) && DArCosh(f, p).Some?
    ensures Mul(p.v, p.v) - 1.0 > 0.0 && f.sqrt(Mul(p.v, p.v) - 1.0) > 0.0
    ensures DArCosh(f, p).value.d == Div(p.d, f.sqrt(Mul(p.v, p.v) - 1.0))
  {
    var u := DSub(DMul(p, p), Fixed(1.0));
    SqrtAtZero(f, u);
    SqrtSlope(f, u);
    var s := DSqrt(f, u).value;
    LnSlope(f, DAdd(p, s));
    RootSlope(p.v, p.d, s.v, u.d);
  }

  lemma ArSechSlope(f: Elementary, p: Dual)
    requires Lawful(f) && DArSech(f, p).Some?
    ensures p.v != 0.0 && 1.0 - Mul(p.v, p.v) > 0.0 && Mul(p.v, f.sqrt(1.0 - Mul(p.v, p.v))) != 0.0
    ensures DArSech(f, p).value.d == Div(-p.d, Mul(p.v, f.sqrt(1.0 - Mul(p.v, p.v))))
  {
    var r := DDiv(Fixed(1.0), p).value;
    ReciprocalDual(p.v, p.d);
    ReciprocalSquare(p.v);
    ArCoshSlope(f, r);
    SquareMinusOne(p.v, Mul(r.v, r.v));
    PositiveReciprocal(p.v);
    InvertedSlope(f, p.v, p.d, Mul(r.v, r.v) - 1.0, 1.0 - Mul(p.v, p.v));
    DivNeg(-r.d, f.sqrt(Mul(r.v, r.v) - 1.0));
    DivNeg(p.d, Mul(p.v, f.sqrt(1.0 - Mul(p.v, p.v))));
  }

  lemma PositiveReciprocal(v: real)
    requires v != 0.0
    ensures Div(1.0, v) > 0.0 <==> v > 0.0
  {
  }

  lemma ArCosechSlope(f: Elementary, p: Dual)
    requires Lawful(f) && DArCosech(f, p).Some?
    ensures p.v != 0.0 && 1.0 + Mul(p.v, p.v) > 0.0 && Mul(p.v, f.sqrt(1.0 + Mul(p.v, p.v))) != 0.0
    ensures DArCosech(f, p).value.d
         == var t := Div(-p.d, Mul(p.v, f.sqrt(1.0 + Mul(p.v, p.v)))); if p.v > 0.0 then t else -t
  {
    var r := DDiv(Fixed(1.0), p).value;
    ReciprocalDual(p.v, p.d);
    ReciprocalSquare(p.v);
    ArSinhSlope(f, r);
    SquareMinusOne(p.v, Mul(r.v, r.v));
    InvertedSlope(f, p.v, p.d, Mul(r.v, r.v) + 1.0, 1.0 + Mul(p.v, p.v));
    DivNeg(-r.d, f.sqrt(Mul(r.v, r.v) + 1.0));
    DivNeg(p.d, Mul(p.v, f.sqrt(1.0 + Mul(p.v, p.v))));
  }

  /** Half the logarithmic slope of x/y, where y moves by e and x + y or x - y stays fixed. */
  lemma LogQuotientSlope(x: real, y: real, d: real, e: real)
    requires y != 0.0 && Div(x, y) != 0.0
    ensures x * y != 0.0
    ensures Mul(0.5, Div(Div(d - Mul(Div(x, y), e), y), Div(x, y))) == Div(0.5 * (d * y - x * e), x * y)
  {
    var q := Div(x, y);
    DivTimes(x, y);
    NonZero(q, y);
    NonZero(x, y);
    var z := Div(0.5 * (d * y - x * e), x * y);
    DivTimes(0.5 * (d * y - x * e), x * y);
    assert (2.0 * z * q * y) * y == (d - q * e) * y by {
      assert 2.0 * z * q * y * y == 2.0 * z * ((q * y) * y);
      assert (d - q * e) * y == d * y - (q * y) * e;
    }
    SameFactor(2.0 * z * q * y, d - q * e, y);
    DivIs(d - Mul(q, e), y, 2.0 * z * q);
    DivIs(2.0 * z * q, q, 2.0 * z);
  }

  lemma HalfLnSlope(f: Elementary, x: Dual, y: Dual)
    requires Lawful(f) && DHalfLnQuotient(f, x, y).Some?
    ensures x.v * y.v != 0.0
    ensures DHalfLnQuotient(f, x, y).value.d == Div(0.5 * (x.d * y.v - x.v * y.d), x.v * y.v)
  {
    var q := DDiv(x, y).value;
    LnSlope(f, q);
    LogQuotientSlope(x.v, y.v, x.d, y.d);
    assert Mul(0.0, DLn(f, q).value.v) == 0.0;
  }

  lemma ArTanhSlope(f: Elementary, p: Dual)
    requires Lawful(f) && DArTanh(f, p).Some?
    ensures 1.0 - Mul(p.v, p.v) != 0.0
    ensures DArTanh(f, p).value.d == Div(p.d, 1.0 - Mul(p.v, p.v))
  {
    HalfLnSlope(f, DAdd(Fixed(1.0), p), DSub(Fixed(1.0), p));
    Conjugates(p.v, p.d);
  }

  lemma Conjugates(v: real, d: real)
    ensures (1.0 + v) * (1.0 - v) == 1.0 - Mul(v, v)
    ensures (v + 1.0) * (v - 1.0) == Mul(v, v) - 1.0
    ensures 0.5 * ((0.0 + d) * (1.0 - v) - (1.0 + v) * (0.0 - d)) == d
    ensures 0.5 * ((d + 0.0) * (v - 1.0) - (v + 1.0) * (d - 0.0)) == -d
  {
  }

  lemma ArCothSlope(f: Elementary, p: Dual)
    requires Lawful(f) && DArCoth(f, p).Some?
    ensures Mul(p.v, p.v) - 1.0 != 0.0
    ensures DArCoth(f, p).value.d == Div(-p.d, Mul(p.v, p.v) - 1.0)
  {
    HalfLnSlope(f, DAdd(p, Fixed(1.0)), DSub(p, Fixed(1.0)));
    Conjugates(p.v, p.d);
  }

  // ----------------------------------------------------------------- powers

  lemma PowTwo(f: Elementary, x: real)
    requires Lawful(f)
    ensures PowValue(f, x, 2.0) == Some(Mul(x, x))
  {
    if x > 0.0 {
      var l := f.ln(x);
      ExpLn(f, x);
      ExpSumAt(f, l, l);
      assert Mul(2.0, l) == l + l;
    } else {
      assert PowNat(x, 2) == Mul(x, PowNat(x, 1)) && PowNat(x, 1) == Mul(x, PowNat(x, 0));
    }
  }

  /** One less in the exponent of a positive base. */
  lemma PowStep(f: Elementary, x: real, y: real)
    requires Lawful(f) && x > 0.0
    ensures Mul(PowValue(f, x, y - 1.0).value, x) == PowValue(f, x, y).value
  {
    var l := f.ln(x);
    ExpLn(f, x);
    assert Mul(y - 1.0, l) + l == Mul(y, l);
    ExpSumAt(f, Mul(y - 1.0, l), l);
  }

  lemma PowSlope(f: Elementary, p: Dual, q: Dual)
    requires Lawful(f) && p.v > 0.0
    ensures var P := PowValue(f, p.v, q.v).value;
            DPow(f, p, q) == Some(Dual(P, Mul(P, Mul(q.d, f.ln(p.v)) + Div(Mul(q.v, p.d), p.v))))
  {
    LnSlope(f, p);
    DivTimes(p.d, p.v);
    var t := Div(p.d, p.v);
    assert q.v * t * p.v == q.v * (t * p.v);
    DivIs(Mul(q.v, p.d), p.v, q.v * t);
    assert Mul(q.v, t) + Mul(q.d, f.ln(p.v)) == Mul(q.d, f.ln(p.v)) + Div(Mul(q.v, p.d), p.v);
  }

  lemma FixedPowSlope(f: Elementary, p: Dual, q: Dual)
    requires Lawful(f) && p.v > 0.0 && q.d == 0.0 && DPow(f, p, q).Some?
    ensures DPow(f, p, q).value.d == Mul(Mul(q.v, PowValue(f, p.v, q.v - 1.0).value), p.d)
  {
    PowSlope(f, p, q);
    PowStep(f, p.v, q.v);
    var P, R, u := PowValue(f, p.v, q.v).value, PowValue(f, p.v, q.v - 1.0).value, Div(Mul(q.v, p.d), p.v);
    DivTimes(Mul(q.v, p.d), p.v);
    assert Mul(q.d, f.ln(p.v)) == 0.0;
    ScaleDown(P, R, p.v, u, q.v, p.d);
  }

  lemma ScaleDown(P: real, R: real, v: real, u: real, y: real, d: real)
    requires Mul(R, v) == P && u * v == Mul(y, d)
    ensures Mul(P, 0.0 + u) == Mul(Mul(y, R), d)
  {
    assert R * v * u == R * (u * v);
    assert R * (y * d) == (y * R) * d;
  }

  /** n x^(n-1). */
  lemma {:induction false} DPowNatIs(x: Dual, n: nat)
    ensures DPowNat(x, n).v == PowNat(x.v, n)
    ensures n > 0 ==> DPowNat(x, n).d == Mul(Mul(n as real, PowNat(x.v, n - 1)), x.d)
    ensures n == 0 ==> DPowNat(x, n).d == 0.0
  {
    if n > 0 {
      DPowNatIs(x, n - 1);
      var m := (n - 1) as real;
      assert n as real == m + 1.0;
      if n == 1 {
        assert DPowNat(x, 0) == Fixed(1.0) && PowNat(x.v, 0) == 1.0;
        OneTimes(x.d, x.v);
      } else {
        PowerProduct(x.v, PowNat(x.v, n - 2), m, x.d);
      }
    }
  }

  lemma OneTimes(d: real, v: real)
    ensures Mul(v, 0.0) + Mul(d, 1.0) == Mul(Mul(1.0, 1.0), d)
  {
  }

  lemma PowerProduct(v: real, r: real, m: real, d: real)
    ensures Mul(v, Mul(Mul(m, r), d)) + Mul(d, Mul(v, r)) == Mul(Mul(m + 1.0, Mul(v, r)), d)
  {
    assert v * ((m * r) * d) == m * (v * r) * d;
    assert (m + 1.0) * (v * r) == m * (v * r) + v * r;
  }

  lemma PowNatNonZero(x: real, n: nat)
    requires x != 0.0
    ensures PowNat(x, n) != 0.0
  {
    if n > 0 {
      PowNatNonZero(x, n - 1);
      NonZero(x, PowNat(x, n - 1));
    }
  }

  lemma ReciprocalPower(v: real, r: real, p: real, m: real, d: real)
    requires v != 0.0 && p != 0.0 && p == Mul(v, r)
    ensures Mul(v, p) != 0.0
    ensures Div(0.0 - Mul(Div(1.0, p), Mul(Mul(m, r), d)), p) == Mul(Mul(-m, Div(1.0, Mul(v, p))), d)
  {
    NonZero(v, p);
    var i, k := Div(1.0, p), Div(1.0, Mul(v, p));
    DivTimes(1.0, p);
    DivTimes(1.0, Mul(v, p));
    assert k * p == i * r by {
      assert (k * p) * v == k * (v * p);
      assert (i * r) * v == i * (v * r);
      SameFactor(k * p, i * r, v);
    }
    assert Mul(Mul(-m, k), d) * p == -((m * d) * (k * p));
    assert Mul(i, Mul(Mul(m, r), d)) == (m * d) * (i * r);
    DivIs(0.0 - Mul(i, Mul(Mul(m, r), d)), p, Mul(Mul(-m, k), d));
  }

  /** y x^(y-1) for a base that is not positive and an integer exponent. */
  lemma IntPowSlope(f: Elementary, p: Dual, y: real)
    requires p.v <= 0.0 && DPowInt(p, y).Some?
    ensures PowValue(f, p.v, y) == Some(DPowInt(p, y).value.v)
    ensures PowValue(f, p.v, y - 1.0).Some?
    ensures DPowInt(p, y).value.d == Mul(Mul(y, PowValue(f, p.v, y - 1.0).value), p.d)
  {
    hide PowNat, DPowNat, PowValue, Mul, Div, DDiv;
    if y >= 1.0 {
      PositivePower(f, p, y, y.Floor);
    } else if y == 0.0 {
      ZeroPower(f, p);
    } else {
      assert (-y).Floor == 0 - y.Floor;
      NegativePower(f, p, y, (-y).Floor);
    }
  }

  lemma PositivePower(f: Elementary, p: Dual, y: real, n: nat)
    requires p.v <= 0.0 && n > 0 && y == n as real
    ensures PowValue(f, p.v, y) == Some(PowNat(p.v, n)) && PowValue(f, p.v, y - 1.0) == Some(PowNat(p.v, n - 1))
    ensures DPowInt(p, y).Some? && DPowInt(p, y).value.v == PowNat(p.v, n)
    ensures DPowInt(p, y).value.d == Mul(Mul(y, PowNat(p.v, n - 1)), p.d)
  {
    DPowNatIs(p, n);
    assert y.Floor == n && (y - 1.0).Floor == n - 1;
  }

  lemma ZeroPower(f: Elementary, p: Dual)
    requires p.v < 0.0
    ensures PowValue(f, p.v, 0.0) == Some(1.0) && PowValue(f, p.v, 0.0 - 1.0).Some?
    ensures DPowInt(p, 0.0) == Some(Fixed(1.0))
    ensures Mul(Mul(0.0, PowValue(f, p.v, 0.0 - 1.0).value), p.d) == 0.0
  {
    PowNatNonZero(p.v, 1);
    assert PowNat(p.v, 0) == 1.0;
    ZeroTimes(PowValue(f, p.v, 0.0 - 1.0).value, p.d);
  }

  lemma ZeroTimes(x: real, d: real)
    ensures Mul(Mul(0.0, x), d) == 0.0
  {
  }

  lemma NegativePower(f: Elementary, p: Dual, y: real, m: nat)
    requires p.v < 0.0 && m > 0 && y == -(m as real)
    ensures PowNat(p.v, m) != 0.0
    ensures PowValue(f, p.v, y) == Some(Div(1.0, PowNat(p.v, m)))
    ensures PowValue(f, p.v, y - 1.0).Some?
    ensures DPowInt(p, y).Some? && DPowInt(p, y).value.v == Div(1.0, PowNat(p.v, m))
    ensures DPowInt(p, y).value.d == Mul(Mul(y, PowValue(f, p.v, y - 1.0).value), p.d)
  {
    assert (-y).Floor == m && y.Floor == 0 - m && (-(y - 1.0)).Floor == m + 1 && (y - 1.0).Floor == 0 - m - 1;
    PowNatNonZero(p.v, m);
    PowNatNonZero(p.v, m + 1);
    DPowNatIs(p, m);
    ReciprocalPower(p.v, PowNat(p.v, m - 1), PowNat(p.v, m), m as real, p.d);
  }
}
