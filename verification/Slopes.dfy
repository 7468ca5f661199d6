/** The rates of change that forward differentiation computes from the definitions
    of the functions, brought into the form of the differentiation table. */
module Slopes {
  import opened Arithmetic
  import opened DualNumbers
  import opened Expressions
  import opened Options
  import opened Simplify

  // ------------------------------------------------------- products, quotients

  lemma DivIs(x: real, y: real, z: real)
    requires y != 0.0 && z * y == x
    ensures Div(x, y) == z
  {
  }

  lemma DivTimes(x: real, y: real)
    requires y != 0.0
    ensures Div(x, y) * y == x
  {
  }

  lemma NonZero(x: real, y: real)
    requires x != 0.0 && y != 0.0
    ensures x * y != 0.0 && Mul(x, y) != 0.0
  {
  }

  /** Quotients are equal when their cross products are. */
  lemma CrossProducts(x: real, y: real, u: real, v: real)
    requires y != 0.0 && v != 0.0 && x * v == u * y
    ensures Div(x, y) == Div(u, v)
  {
    DivTimes(u, v);
    var z := Div(u, v);
    assert (z * y - x) * v == 0.0;
    if z * y - x != 0.0 { NonZero(z * y - x, v); }
    DivIs(x, y, z);
  }

  /** The slopes all the others are made from, written out. */
  lemma BasicSlopes(f: Elementary, p: Dual, q: Dual)
    ensures DExp(f, p) == Dual(f.exp(p.v), f.exp(p.v) * p.d)
    ensures DSin(f, p) == Dual(f.sin(p.v), f.cos(p.v) * p.d) && DCos(f, p) == Dual(f.cos(p.v), -(f.sin(p.v) * p.d))
    ensures DAdd(p, q) == Dual(p.v + q.v, p.d + q.d) && DSub(p, q) == Dual(p.v - q.v, p.d - q.d)
    ensures DMul(p, q) == Dual(p.v * q.v, p.v * q.d + p.d * q.v)
    ensures DDiv(p, q).Some? <==> q.v != 0.0
    ensures q.v != 0.0 ==> var z := DDiv(p, q).value; z.v * q.v == p.v && z.v * q.d + z.d * q.v == p.d
  {
    if q.v != 0.0 {
      DivTimes(p.v, q.v);
      var u := Div(p.v, q.v);
      DivTimes(p.d - Mul(u, q.d), q.v);
    }
  }

  /** And those of the functions that are defined piece by piece. */
  lemma PieceSlopes(f: Elementary, p: Dual)
    ensures if p.v == 0.0 then DAbs(p) == None else DAbs(p) == Some(if p.v > 0.0 then p else Dual(-p.v, -p.d))
    ensures p.v != 0.0 ==> DStep(p).Some? && DStep(p).value.d == 0.0 && DSign(p).Some? && DSign(p).value.d == 0.0
    ensures DLimExp(f, p).d == if p.v < f.limitexp then Mul(f.exp(p.v), p.d) else Mul(f.exp(f.limitexp), p.d)
    ensures DVt(f, p) == Some(Dual(Mul(p.v, f.kBoverQ), Mul(p.d, f.kBoverQ)))
  {
  }

  // ----------------------------------------------------------- laws, at a point

  lemma SinCos(f: Elementary, x: real)
    requires Lawful(f)
    ensures f.sin(x) * f.sin(x) + f.cos(x) * f.cos(x) == 1.0
    ensures Mul(f.sin(x), f.sin(x)) + Mul(f.cos(x), f.cos(x)) == 1.0
  {
    assert LawsAt(f, x);
  }

  lemma ExpLn(f: Elementary, x: real)
    requires Lawful(f) && x > 0.0
    ensures f.exp(f.ln(x)) == x
  {
    assert LawsAt(f, x);
  }

  lemma SqrtSquared(f: Elementary, x: real)
    requires Lawful(f) && x >= 0.0
    ensures f.sqrt(x) >= 0.0 && Mul(f.sqrt(x), f.sqrt(x)) == x
    ensures x > 0.0 ==> f.sqrt(x) > 0.0
  {
    assert LawsAt(f, x);
  }

  lemma RootIs(f: Elementary, x: real, y: real)
    requires Lawful(f) && y >= 0.0 && Mul(y, y) == x
    ensures f.sqrt(x) == y
  {
    SqrtOfSquare(f, y);
  }

  lemma ExpOpposite(f: Elementary, x: real)
    requires Lawful(f)
    ensures f.exp(x) * f.exp(-x) == 1.0 && f.exp(x) > 0.0 && f.exp(-x) > 0.0
  {
    ExpSumAt(f, x, -x);
    ExpSumAt(f, -x, x);
    ExpOfZero(f);
    assert x + -x == 0.0;
  }

  // ------------------------------------------------- logarithm, root, quotients

  lemma LnSlope(f: Elementary, p: Dual)
    requires Lawful(f) && p.v > 0.0
    ensures DLn(f, p) == Some(Dual(f.ln(p.v), Div(p.d, p.v)))
  {
    ExpLn(f, p.v);
    assert Mul(f.exp(f.ln(p.v)), 1.0) == p.v;
  }

  lemma SqrtSlope(f: Elementary, p: Dual)
    requires Lawful(f) && p.v > 0.0
    ensures f.sqrt(p.v) > 0.0 && DSqrt(f, p) == Some(Dual(f.sqrt(p.v), Div(Mul(0.5, p.d), f.sqrt(p.v))))
  {
    SqrtSquared(f, p.v);
    var y := f.sqrt(p.v);
    assert DMul(Dual(y, 1.0), Dual(y, 1.0)).d == y + y;
    CrossProducts(p.d, y + y, Mul(0.5, p.d), y);
  }

  lemma ZeroRoot(y: real)
    requires y >= 0.0 && Mul(y, y) == 0.0
    ensures y == 0.0
  {
    if y > 0.0 { Positive(y, y); }
  }

  lemma SqrtAtZero(f: Elementary, p: Dual)
    requires Lawful(f) && DSqrt(f, p).Some?
    ensures p.v > 0.0
  {
    var y := f.sqrt(p.v);
    SqrtSquared(f, p.v);
    if p.v == 0.0 {
      ZeroRoot(y);
    }
  }

  lemma SincSlope(s: real, c: real, v: real, d: real)
    requires v != 0.0
    ensures Div(Mul(c, d) - Mul(Div(s, v), d), v) == Mul(d, Div(c - Div(s, v), v))
  {
    var q := Div(s, v);
    DivTimes(c - q, v);
    DivIs(Mul(c, d) - Mul(q, d), v, Mul(d, Div(c - q, v)));
  }

  // ------------------------------------------------------ circular functions

  lemma TanSlope(s: real, c: real, d: real)
    requires c != 0.0 && s * s + c * c == 1.0
    ensures Div(Mul(c, d) - Mul(Div(s, c), -Mul(s, d)), c) == Mul(d, Mul(Div(1.0, c), Div(1.0, c)))
  {
    var q, r := Div(s, c), Div(1.0, c);
    DivTimes(s, c);
    DivTimes(1.0, c);
    assert q == s * r;
    var z := d * (r * r);
    assert z * c == d * r * (r * c);
    TimesOne(d * r, r * c);
    assert c * d + q * (s * d) == d * r by {
      assert q * (s * d) == r * (s * s) * d;
      assert c * d == r * (c * c) * d;
      assert r * (c * c) * d + r * (s * s) * d == r * (s * s + c * c) * d;
    }
    DivIs(Mul(c, d) - Mul(q, -Mul(s, d)), c, z);
  }

  lemma SecSlope(s: real, c: real, d: real)
    requires c != 0.0
    ensures Mul(c, c) != 0.0
    ensures Div(0.0 - Mul(Div(1.0, c), -Mul(s, d)), c) == Mul(d, Div(s, Mul(c, c)))
  {
    NonZero(c, c);
    var r, t := Div(1.0, c), Div(s, Mul(c, c));
    DivTimes(1.0, c);
    DivTimes(s, Mul(c, c));
    assert t == s * (r * r) by {
      assert s * (r * r) * (c * c) == s * ((r * c) * (r * c));
      DivIs(s, Mul(c, c), s * (r * r));
    }
    assert d * t * c == d * s * r * (r * c);
    DivIs(0.0 - Mul(r, -Mul(s, d)), c, Mul(d, t));
  }

  lemma CosecSlope(s: real, c: real, d: real)
    requires s != 0.0
    ensures Mul(s, s) != 0.0
    ensures Div(0.0 - Mul(Div(1.0, s), Mul(c, d)), s) == Mul(-d, Div(c, Mul(s, s)))
  {
    SecSlope(c, s, -d);
    assert Mul(c, d) == -Mul(c, -d);
  }

  /** The slope of 1/t, where t is a quotient s/c with slope d/c^2. */
  lemma ReciprocalSlope(s: real, c: real, t: real, e: real, d: real)
    requires c != 0.0 && s != 0.0 && t * c == s && t != 0.0 && e == Mul(d, Mul(Div(1.0, c), Div(1.0, c)))
    ensures Div(0.0 - Mul(Div(1.0, t), e), t) == Mul(-d, Mul(Div(1.0, s), Div(1.0, s)))
  {
    var r, u, w := Div(1.0, c), Div(1.0, s), Div(1.0, t);
    DivTimes(1.0, c);
    DivTimes(1.0, s);
    DivTimes(1.0, t);
    assert u == w * r by {
      assert (w * r) * s == (w * t) * (r * c);
      DivIs(1.0, s, w * r);
    }
    assert Mul(-d, Mul(u, u)) * t == -(d * (r * r) * w * (w * t));
    DivIs(0.0 - Mul(w, e), t, Mul(-d, Mul(u, u)));
  }

  // --------------------------------------------------------- inverse functions

  lemma Complement(v: real, c: real)
    requires Mul(v, v) + Mul(c, c) == 1.0 && c > 0.0
    ensures 1.0 - Mul(v, v) == Mul(c, c) > 0.0
  {
    Positive(c, c);
  }

  lemma AsinSlope(f: Elementary, p: Dual)
    requires Lawful(f) && DAsin(f, p).Some?
    ensures 1.0 - Mul(p.v, p.v) > 0.0 && f.sqrt(1.0 - Mul(p.v, p.v)) > 0.0
    ensures DAsin(f, p).value.d == Div(p.d, f.sqrt(1.0 - Mul(p.v, p.v)))
  {
    var y := f.asin(p.v);
    assert LawsAt(f, p.v);
    SinCos(f, y);
    assert Mul(f.cos(y), 1.0) == f.cos(y);
    Complement(p.v, f.cos(y));
    RootIs(f, 1.0 - Mul(p.v, p.v), f.cos(y));
  }

  lemma AcosSlope(f: Elementary, p: Dual)
    requires Lawful(f) && DAcos(f, p).Some?
    ensures 1.0 - Mul(p.v, p.v) > 0.0 && f.sqrt(1.0 - Mul(p.v, p.v)) > 0.0
    ensures DAcos(f, p).value.d == Div(-p.d, f.sqrt(1.0 - Mul(p.v, p.v)))
  {
    var y := f.acos(p.v);
    assert LawsAt(f, p.v);
    SinCos(f, y);
    assert Mul(f.sin(y), 1.0) == f.sin(y);
    Complement(p.v, f.sin(y));
    RootIs(f, 1.0 - Mul(p.v, p.v), f.sin(y));
    CrossProducts(p.d, -f.sin(y), -p.d, f.sin(y));
  }

  lemma AtanSlope(f: Elementary, p: Dual)
    requires Lawful(f)
    ensures 1.0 + Mul(p.v, p.v) > 0.0
    ensures DAtan(f, p) == Some(Dual(f.atan(p.v), Div(p.d, 1.0 + Mul(p.v, p.v))))
  {
    var y := f.atan(p.v);
    assert LawsAt(f, p.v);
    SinCos(f, y);
    var s, c := f.sin(y), f.cos(y);
    assert Mul(c, 1.0) == c && Mul(s, 1.0) == s;
    TanSlope(s, c, 1.0);
    SecantSquare(s, c, p.v);
  }

  lemma SecantSquare(s: real, c: real, v: real)
    requires c > 0.0 && s == Mul(v, c) && s * s + c * c == 1.0
    ensures Mul(1.0, Mul(Div(1.0, c), Div(1.0, c))) == 1.0 + Mul(v, v) > 0.0
  {
    var r := Div(1.0, c);
    DivTimes(1.0, c);
    assert r * r * (c * c) == (r * c) * (r * c);
    assert r * r * (s * s) == (r * c) * (r * c) * (v * v);
    assert r * r * (s * s + c * c) == r * r;
    assert v * v >= 0.0;
  }

  lemma ReciprocalDual(v: real, d: real)
    requires v != 0.0
    ensures DDiv(Fixed(1.0), Dual(v, d)) == Some(Dual(Div(1.0, v), -Div(Mul(Div(1.0, v), d), v)))
  {
    var r := Div(1.0, v);
    assert (0.0 - Mul(r, d)) == -Mul(r, d);
    DivTimes(Mul(r, d), v);
    DivIs(0.0 - Mul(r, d), v, -Div(Mul(r, d), v));
  }

  /** With m = |v| s, the two forms of a slope. */
  lemma ScaledRoot(v: real, d: real, s: real, m: real)
    requires v != 0.0 && s > 0.0 && m >= 0.0 && m * m == (v * v) * (s * s)
    ensures Mul(v, m) != 0.0
    ensures Div(Div(Mul(Div(1.0, v), d), v), s) == if v > 0.0 then Div(d, Mul(v, m)) else -Div(d, Mul(v, m))
  {
    DivTimes(1.0, v);
    var a := if v > 0.0 then v else -v;
    assert (a * s) * (a * s) == (v * v) * (s * s);
    Positive(a, s);
    SameRoot(a * s, m);
    NonZero(v, m);
    ReciprocalForm(v, d, Div(1.0, v), s, a, m);
  }

  lemma ReciprocalForm(v: real, d: real, r: real, s: real, a: real, m: real)
    requires v != 0.0 && s > 0.0 && r * v == 1.0 && m == a * s && (a == v || a == -v) && Mul(v, m) != 0.0
    ensures Div(Div(Mul(r, d), v), s) == if a == v then Div(d, Mul(v, m)) else -Div(d, Mul(v, m))
  {
    var z := Div(d, Mul(v, m));
    DivTimes(d, Mul(v, m));
    assert z * (v * m) == d;
    var w := if a == v then z else -z;
    assert w * s * v * v == d by {
      assert z * (v * m) == (if a == v then z * (v * (v * s)) else -(z * (v * (v * s))));
    }
    assert (w * s * v) * v == d;
    assert w * s * v == r * d by {
      assert (w * s * v) * v * r == (w * s * v) * (r * v);
    }
    DivIs(Mul(r, d), v, w * s);
    DivIs(w * s, s, w);
  }

  lemma ReciprocalSquare(v: real)
    requires v != 0.0
    ensures (v * v) * Mul(Div(1.0, v), Div(1.0, v)) == 1.0
  {
    var r := Div(1.0, v);
    DivTimes(1.0, v);
    assert (v * v) * (r * r) == (r * v) * (r * v);
  }

  lemma DivNeg(x: real, y: real)
    requires y != 0.0
    ensures Div(-x, y) == -Div(x, y)
  {
  }

  /** The slope of a function of 1/v whose own slope is 1/s, in terms of a root m. */
  lemma InvertedSlope(f: Elementary, v: real, d: real, x: real, y: real)
    requires Lawful(f) && v != 0.0 && x > 0.0 && y == (v * v) * x
    ensures y > 0.0 && f.sqrt(x) > 0.0 && Mul(v, f.sqrt(y)) != 0.0
    ensures Div(Div(Mul(Div(1.0, v), d), v), f.sqrt(x)) ==
            if v > 0.0 then Div(d, Mul(v, f.sqrt(y))) else -Div(d, Mul(v, f.sqrt(y)))
  {
    if v > 0.0 { Positive(v, v); } else { Positive(-v, -v); }
    Positive(v * v, x);
    SqrtSquared(f, x);
    SqrtSquared(f, y);
    ScaledRoot(v, d, f.sqrt(x), f.sqrt(y));
  }

  /** arcsec is the arccosine of 1/x.  The slope has the sign of d for every x. */
  lemma ArcSecSlope(f: Elementary, p: Dual)
    requires Lawful(f) && DArcSec(f, p).Some?
    ensures p.v != 0.0 && Mul(p.v, p.v) - 1.0 > 0.0 && Mul(p.v, f.sqrt(Mul(p.v, p.v) - 1.0)) != 0.0
    ensures DArcSec(f, p).value.d
         == var t := Div(p.d, Mul(p.v, f.sqrt(Mul(p.v, p.v) - 1.0))); if p.v > 0.0 then t else -t
  {
    var r := DDiv(Fixed(1.0), p).value;
    ReciprocalDual(p.v, p.d);
    ReciprocalSquare(p.v);
    AcosSlope(f, r);
    SquareMinusOne(p.v, Mul(r.v, r.v));
    InvertedSlope(f, p.v, p.d, 1.0 - Mul(r.v, r.v), Mul(p.v, p.v) - 1.0);
  }

  lemma SquareMinusOne(v: real, q: real)
    requires (v * v) * q == 1.0
    ensures Mul(v, v) - 1.0 == (v * v) * (1.0 - q)
    ensures 1.0 - Mul(v, v) == (v * v) * (q - 1.0)
    ensures 1.0 + Mul(v, v) == (v * v) * (q + 1.0)
  {
  }

  lemma ArcCosecSlope(f: Elementary, p: Dual)
    requires Lawful(f) && DArcCosec(f, p).Some?
    ensures p.v != 0.0 && Mul(p.v, p.v) - 1.0 > 0.0 && Mul(p.v, f.sqrt(Mul(p.v, p.v) - 1.0)) != 0.0
    ensures DArcCosec(f, p).value.d
         == var t := Div(-p.d, Mul(p.v, f.sqrt(Mul(p.v, p.v) - 1.0))); if p.v > 0.0 then t else -t
  {
    var r := DDiv(Fixed(1.0), p).value;
    ReciprocalDual(p.v, p.d);
    ReciprocalSquare(p.v);
    AsinSlope(f, r);
    SquareMinusOne(p.v, Mul(r.v, r.v));
    InvertedSlope(f, p.v, p.d, 1.0 - Mul(r.v, r.v), Mul(p.v, p.v) - 1.0);
    DivNeg(-r.d, f.sqrt(1.0 - Mul(r.v, r.v)));
    DivNeg(p.d, Mul(p.v, f.sqrt(Mul(p.v, p.v) - 1.0)));
  }

  // ------------------------------------------------------ hyperbolic functions

  lemma HalfProduct(e: real, g: real, d: real)
    ensures Mul(0.5, Mul(e, d) - Mul(g, -d)) + Mul(0.0, e - g) == Mul(d, Mul(0.5, e + g))
    ensures Mul(0.5, Mul(e, d) + Mul(g, -d)) + Mul(0.0, e + g) == Mul(d, Mul(0.5, e - g))
  {
  }

  lemma SinhCoshSlope(f: Elementary, p: Dual)
    ensures DSinh(f, p) == Dual(SinhValue(f, p.v), Mul(p.d, CoshValue(f, p.v)))
    ensures DCosh(f, p) == Dual(CoshValue(f, p.v), Mul(p.d, SinhValue(f, p.v)))
  {
    HalfProduct(f.exp(p.v), f.exp(-p.v), p.d);
  }

  lemma HyperbolicUnit(f: Elementary, x: real)
    requires Lawful(f)
    ensures CoshValue(f, x) > 0.0
    ensures CoshValue(f, x) * CoshValue(f, x) - SinhValue(f, x) * SinhValue(f, x) == 1.0
  {
    ExpOpposite(f, x);
    HyperbolicSquares(f.exp(x), f.exp(-x));
  }

  lemma HyperbolicSquares(e: real, g: real)
    requires e * g == 1.0
    ensures Mul(0.5, e + g) * Mul(0.5, e + g) - Mul(0.5, e - g) * Mul(0.5, e - g) == 1.0
  {
  }

  lemma TanhSlope(s: real, c: real, d: real)
    requires c != 0.0 && c * c - s * s == 1.0
    ensures Mul(c, c) != 0.0 && Div(Mul(d, c) - Mul(Div(s, c), Mul(d, s)), c) == Div(d, Mul(c, c))
  {
    NonZero(c, c);
    var q, z := Div(s, c), Div(d, Mul(c, c));
    DivTimes(s, c);
    DivTimes(d, Mul(c, c));
    assert z * (c * c) == d;
    assert d * c - q * (d * s) == z * c by {
      assert d * s * (c * q) == d * s * s;
      assert (d * c - q * (d * s)) * c == d * (c * c) - d * s * (q * c);
      assert (d * c - q * (d * s)) * c == d * (c * c - s * s);
      assert (z * c) * c == z * (c * c);
      SameFactor(d * c - q * (d * s), z * c, c);
    }
    DivIs(Mul(d, c) - Mul(q, Mul(d, s)), c, z);
  }

  lemma SquareForms(d: real, c: real)
    requires c != 0.0
    ensures Mul(c, c) != 0.0 && Div(d, Mul(c, c)) == Mul(d, Mul(Div(1.0, c), Div(1.0, c)))
  {
    NonZero(c, c);
    var r := Div(1.0, c);
    DivTimes(1.0, c);
    assert d * (r * r) * (c * c) == d * ((r * c) * (r * c));
    DivIs(d, Mul(c, c), Mul(d, Mul(r, r)));
  }

  lemma CothSlope(s: real, c: real, t: real, e: real, d: real)
    requires c != 0.0 && s != 0.0 && t != 0.0 && t * c == s && Mul(c, c) != 0.0 && e == Div(d, Mul(c, c))
    ensures Mul(s, s) != 0.0 && Div(0.0 - Mul(Div(1.0, t), e), t) == Div(-d, Mul(s, s))
  {
    SquareForms(d, c);
    SquareForms(-d, s);
    ReciprocalSlope(s, c, t, e, d);
  }
}
