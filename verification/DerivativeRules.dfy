/** Every rule of the differentiation table computes the slope that forward
    differentiation finds. */
module DerivativeRules {
  import opened AreaSlopes
  import opened Differentiate
  import opened DualNumbers
  import opened Expressions
  import opened Options
  import opened Simplify
  import opened Slopes

  /** a has the value of p, and d is an expression for its slope. */
  ghost predicate Given(f: Elementary, env: Env, a: Expr, d: Expr, p: Dual) {
    Lawful(f) && env("e") == f.euler && Is(f, env, a, p.v) && Is(f, env, d, p.d)
  }

  lemma ConIs(f: Elementary, env: Env, x: real)
    ensures Is(f, env, Con(x), x)
  {
  }

  lemma IsApp1(f: Elementary, env: Env, op: Op1, a: Expr, x: real, w: real)
    requires Is(f, env, a, x) && Value1(f, op, x) == Some(w)
    ensures Is(f, env, App1(op, a), w)
  {
  }

  lemma SquareIs(f: Elementary, env: Env, a: Expr, x: real)
    requires Lawful(f) && Is(f, env, a, x)
    ensures Is(f, env, PowerReduce(f, a, Con(2.0)), Mul(x, x))
  {
    PowTwo(f, x);
    ConIs(f, env, 2.0);
    PowerIs(f, env, a, Con(2.0), x, 2.0);
  }

  /** The root of 1 - a^2, a^2 - 1 and 1 + a^2, in the orders of the rules. */
  lemma RootsAre(f: Elementary, env: Env, a: Expr, x: real)
    requires Lawful(f) && Is(f, env, a, x)
    ensures Is(f, env, MinusReduce(Con(1.0), SqrReduce(a)), 1.0 - Mul(x, x))
    ensures Is(f, env, MinusReduce(SqrReduce(a), Con(1.0)), Mul(x, x) - 1.0)
    ensures Is(f, env, PlusReduce(Con(1.0), SqrReduce(a)), 1.0 + Mul(x, x))
    ensures Is(f, env, PlusReduce(SqrReduce(a), Con(1.0)), Mul(x, x) + 1.0)
  {
    ConIs(f, env, 1.0);
    SqrIs(f, env, a, x);
    MinusIs(f, env, Con(1.0), SqrReduce(a), 1.0, Mul(x, x));
    MinusIs(f, env, SqrReduce(a), Con(1.0), Mul(x, x), 1.0);
    PlusIs(f, env, Con(1.0), SqrReduce(a), 1.0, Mul(x, x));
    PlusIs(f, env, SqrReduce(a), Con(1.0), Mul(x, x), 1.0);
  }

  lemma BinaryLogarithm(t: real, k: real, l: real, y: real)
    requires Mul(k, l) == 1.0
    ensures l != 0.0 && Mul(y, 0.0) + Mul(t, k) == Div(t, l)
  {
    MulUnits(k, l);
    assert (t * k) * l == t * (k * l);
    DivIs(t, l, Mul(t, k));
  }

  lemma Commutes(x: real, y: real)
    ensures Mul(x, y) == Mul(y, x) && Mul(-x, y) == -Mul(y, x)
  {
  }

  lemma Doubled(x: real, d: real)
    ensures Mul(x, d) + Mul(d, x) == Mul(Mul(d, 2.0), x) == Mul(Mul(2.0, d), x)
  {
  }

  lemma ZeroQuotient(x: real, y: real)
    requires y != 0.0
    ensures Div(x, y) == 0.0 <==> x == 0.0
  {
    DivTimes(x, y);
  }

  lemma LimitedExpIs(f: Elementary, env: Env, a: Expr, x: real)
    requires Is(f, env, a, x)
    ensures Is(f, env, Ite(App2(Less, a, Con(f.limitexp)), App1(Exp, a), Con(f.exp(f.limitexp))),
               if x < f.limitexp then f.exp(x) else f.exp(f.limitexp))
  {
    EvalApp2(f, env, Less, a, Con(f.limitexp), x, f.limitexp);
    EvalApp1(f, env, Exp, a, x);
  }

  lemma LnRule(f: Elementary, env: Env, a: Expr, d: Expr, p: Dual)
    requires Given(f, env, a, d, p) && DLn(f, p).Some?
    ensures Is(f, env, DiffLn(a, d), DLn(f, p).value.d)
  {
    hide Is, Mul, Div, TimesReduce, OverReduce;
    LnSlope(f, p);
    OverIs(f, env, d, a, p.d, p.v);
  }

  lemma Log10Rule(f: Elementary, env: Env, a: Expr, d: Expr, p: Dual)
    requires Given(f, env, a, d, p) && DLog10(f, p).Some?
    ensures Is(f, env, DiffLog10(f, a, d), DLog10(f, p).value.d)
  {
    assert Mul(Div(DLn(f, p).value.v, f.ln(10.0)), 0.0) == 0.0;
    hide Is, Mul, Div, TimesReduce, OverReduce;
    LnSlope(f, p);
    OverIs(f, env, d, a, p.d, p.v);
    ConIs(f, env, 10.0);
    LnIs(f, env, Con(10.0), 10.0);
    OverIs(f, env, OverReduce(d, a), LnReduce(f, Con(10.0)), Div(p.d, p.v), f.ln(10.0));
  }

  lemma Log2Rule(f: Elementary, env: Env, a: Expr, d: Expr, p: Dual)
    requires Given(f, env, a, d, p) && DLog2(f, p).Some?
    ensures Is(f, env, DiffLog2(f, a, d), DLog2(f, p).value.d)
  {
    hide Is, Mul, Div, TimesReduce, OverReduce;
    LnSlope(f, p);
    OverIs(f, env, d, a, p.d, p.v);
    ConIs(f, env, 2.0);
    LnIs(f, env, Con(2.0), 2.0);
    BinaryLogarithm(Div(p.d, p.v), f.log2e, f.ln(2.0), DLn(f, p).value.v);
    OverIs(f, env, OverReduce(d, a), LnReduce(f, Con(2.0)), Div(p.d, p.v), f.ln(2.0));
  }

  lemma SqrtRule(f: Elementary, env: Env, a: Expr, d: Expr, p: Dual)
    requires Given(f, env, a, d, p) && DSqrt(f, p).Some?
    ensures Is(f, env, DiffSqrt(a, d), DSqrt(f, p).value.d)
  {
    hide Is, Mul, Div, TimesReduce, OverReduce;
    SqrtAtZero(f, p);
    SqrtSlope(f, p);
    ConIs(f, env, 0.5);
    TimesIs(f, env, Con(0.5), d, 0.5, p.d);
    SqrtIs(f, env, a, p.v);
    OverIs(f, env, TimesReduce(Con(0.5), d), SqrtReduce(a), Mul(0.5, p.d), f.sqrt(p.v));
  }

  lemma ExpRule(f: Elementary, env: Env, a: Expr, d: Expr, p: Dual)
    requires Given(f, env, a, d, p)
    ensures Is(f, env, DiffExp(a, d), DExp(f, p).d)
  {
    hide Is, Mul, Div, TimesReduce, OverReduce;
    AppIs(f, env, Exp, d, a, p.d, p.v);
    Commutes(p.d, f.exp(p.v));
  }

  lemma SincRule(f: Elementary, env: Env, a: Expr, d: Expr, p: Dual)
    requires Given(f, env, a, d, p) && DSinc(f, p).Some?
    ensures Is(f, env, DiffSinc(a, d), DSinc(f, p).value.d)
  {
    hide Is, Mul, Div, TimesReduce, OverReduce;
    IsApp1(f, env, Cos, a, p.v, f.cos(p.v));
    IsApp1(f, env, Sinc, a, p.v, Div(f.sin(p.v), p.v));
    var q := Div(f.sin(p.v), p.v);
    MinusIs(f, env, App1(Cos, a), App1(Sinc, a), f.cos(p.v), q);
    OverIs(f, env, MinusReduce(App1(Cos, a), App1(Sinc, a)), a, f.cos(p.v) - q, p.v);
    TimesIs(f, env, d, OverReduce(MinusReduce(App1(Cos, a), App1(Sinc, a)), a), p.d, Div(f.cos(p.v) - q, p.v));
    SincSlope(f.sin(p.v), f.cos(p.v), p.v, p.d);
  }

  lemma NormRule(f: Elementary, env: Env, a: Expr, d: Expr, p: Dual)
    requires Given(f, env, a, d, p)
    ensures Is(f, env, DiffNorm(a, d), DMul(p, p).d)
  {
    hide Is, Mul, Div, TimesReduce, OverReduce;
    ConIs(f, env, 2.0);
    TimesIs(f, env, d, Con(2.0), p.d, 2.0);
    TimesIs(f, env, TimesReduce(d, Con(2.0)), a, Mul(p.d, 2.0), p.v);
    Doubled(p.v, p.d);
  }

  lemma SqrRule(f: Elementary, env: Env, a: Expr, d: Expr, p: Dual)
    requires Given(f, env, a, d, p)
    ensures Is(f, env, DiffSqr(a, d), DMul(p, p).d)
  {
    hide Is, Mul, Div, TimesReduce, OverReduce;
    ConIs(f, env, 2.0);
    TimesIs(f, env, Con(2.0), d, 2.0, p.d);
    TimesIs(f, env, TimesReduce(Con(2.0), d), a, Mul(2.0, p.d), p.v);
    Doubled(p.v, p.d);
  }

  lemma SinRule(f: Elementary, env: Env, a: Expr, d: Expr, p: Dual)
    requires Given(f, env, a, d, p)
    ensures Is(f, env, DiffSin(a, d), DSin(f, p).d)
  {
    hide Is, Mul, Div, TimesReduce, OverReduce;
    AppIs(f, env, Cos, d, a, p.d, p.v);
    Commutes(p.d, f.cos(p.v));
  }

  lemma CosRule(f: Elementary, env: Env, a: Expr, d: Expr, p: Dual)
    requires Given(f, env, a, d, p)
    ensures Is(f, env, DiffCos(a, d), DCos(f, p).d)
  {
    hide Is, Mul, Div, TimesReduce, OverReduce;
    NegIs(f, env, d, p.d);
    AppIs(f, env, Sin, NegReduce(d), a, -p.d, p.v);
    Commutes(p.d, f.sin(p.v));
  }

  lemma TanRule(f: Elementary, env: Env, a: Expr, d: Expr, p: Dual)
    requires Given(f, env, a, d, p) && DTan(f, p).Some?
    ensures Is(f, env, DiffTan(f, a, d), DTan(f, p).value.d)
  {
    hide Is, Mul, Div, TimesReduce, OverReduce;
    SinCos(f, p.v);
    TanSlope(f.sin(p.v), f.cos(p.v), p.d);
    IsApp1(f, env, Sec, a, p.v, Div(1.0, f.cos(p.v)));
    SquareIs(f, env, App1(Sec, a), Div(1.0, f.cos(p.v)));
    TimesIs(f, env, d, PowerReduce(f, App1(Sec, a), Con(2.0)), p.d, Mul(Div(1.0, f.cos(p.v)), Div(1.0, f.cos(p.v))));
  }

  lemma SecRule(f: Elementary, env: Env, a: Expr, d: Expr, p: Dual)
    requires Given(f, env, a, d, p) && DSec(f, p).Some?
    ensures Is(f, env, DiffSec(f, a, d), DSec(f, p).value.d)
  {
    hide Is, Mul, Div, TimesReduce, OverReduce;
    var s, c := f.sin(p.v), f.cos(p.v);
    SecSlope(s, c, p.d);
    IsApp1(f, env, Sin, a, p.v, f.sin(p.v));
    IsApp1(f, env, Cos, a, p.v, f.cos(p.v));
    SquareIs(f, env, App1(Cos, a), c);
    OverIs(f, env, App1(Sin, a), PowerReduce(f, App1(Cos, a), Con(2.0)), s, Mul(c, c));
    TimesIs(f, env, d, OverReduce(App1(Sin, a), PowerReduce(f, App1(Cos, a), Con(2.0))), p.d, Div(s, Mul(c, c)));
  }

  lemma CotSlope(f: Elementary, p: Dual)
    requires Lawful(f) && DCot(f, p).Some?
    ensures f.sin(p.v) != 0.0
    ensures DCot(f, p).value.d == Mul(-p.d, Mul(Div(1.0, f.sin(p.v)), Div(1.0, f.sin(p.v))))
  {
    hide Mul, Div;
    var s, c := f.sin(p.v), f.cos(p.v);
    var t := DTan(f, p).value;
    SinCos(f, p.v);
    TanSlope(s, c, p.d);
    DivTimes(s, c);
    if s == 0.0 { assert false by { NonZero(t.v, c); } }
    ReciprocalSlope(s, c, t.v, t.d, p.d);
  }

  lemma CotRule(f: Elementary, env: Env, a: Expr, d: Expr, p: Dual)
    requires Given(f, env, a, d, p) && DCot(f, p).Some?
    ensures Is(f, env, DiffCot(f, a, d), DCot(f, p).value.d)
  {
    hide Is, Mul, Div, TimesReduce, OverReduce;
    var s := f.sin(p.v);
    CotSlope(f, p);
    hide DCot;
    NegIs(f, env, d, p.d);
    IsApp1(f, env, Cosec, a, p.v, Div(1.0, f.sin(p.v)));
    SquareIs(f, env, App1(Cosec, a), Div(1.0, s));
    TimesIs(f, env, NegReduce(d), PowerReduce(f, App1(Cosec, a), Con(2.0)), -p.d, Mul(Div(1.0, s), Div(1.0, s)));
  }

  lemma CosecRule(f: Elementary, env: Env, a: Expr, d: Expr, p: Dual)
    requires Given(f, env, a, d, p) && DCosec(f, p).Some?
    ensures Is(f, env, DiffCosec(f, a, d), DCosec(f, p).value.d)
  {
    hide Is, Mul, Div, TimesReduce, OverReduce;
    var s, c := f.sin(p.v), f.cos(p.v);
    CosecSlope(s, c, p.d);
    NegIs(f, env, d, p.d);
    IsApp1(f, env, Sin, a, p.v, f.sin(p.v));
    IsApp1(f, env, Cos, a, p.v, f.cos(p.v));
    SquareIs(f, env, App1(Sin, a), s);
    OverIs(f, env, App1(Cos, a), PowerReduce(f, App1(Sin, a), Con(2.0)), c, Mul(s, s));
    TimesIs(f, env, NegReduce(d), OverReduce(App1(Cos, a), PowerReduce(f, App1(Sin, a), Con(2.0))), -p.d, Div(c, Mul(s, s)));
  }

  lemma AbsOfRule(f: Elementary, env: Env, a: Expr, d: Expr, p: Dual)
    requires Given(f, env, a, d, p) && DAbs(p).Some?
    ensures Is(f, env, DiffAbs(a, d), DAbs(p).value.d)
  {
    hide Is, Mul, Div, TimesReduce, OverReduce;
    AppIs(f, env, Sign, d, a, p.d, p.v);
    MulUnits(p.d, if p.v < 0.0 then -1.0 else 1.0);
  }

  lemma ArcSinRule(f: Elementary, env: Env, a: Expr, d: Expr, p: Dual)
    requires Given(f, env, a, d, p) && DAsin(f, p).Some?
    ensures Is(f, env, DiffArcSin(a, d), DAsin(f, p).value.d)
  {
    hide Is, Mul, Div, TimesReduce, OverReduce;
    AsinSlope(f, p);
    RootsAre(f, env, a, p.v);
    var u := 1.0 - Mul(p.v, p.v);
    SqrtIs(f, env, MinusReduce(Con(1.0), SqrReduce(a)), u);
    OverIs(f, env, d, SqrtReduce(MinusReduce(Con(1.0), SqrReduce(a))), p.d, f.sqrt(u));
  }

  lemma ArcCosRule(f: Elementary, env: Env, a: Expr, d: Expr, p: Dual)
    requires Given(f, env, a, d, p) && DAcos(f, p).Some?
    ensures Is(f, env, DiffArcCos(a, d), DAcos(f, p).value.d)
  {
    hide Is, Mul, Div, TimesReduce, OverReduce;
    AcosSlope(f, p);
    RootsAre(f, env, a, p.v);
    var u := 1.0 - Mul(p.v, p.v);
    SqrtIs(f, env, MinusReduce(Con(1.0), SqrReduce(a)), u);
    NegIs(f, env, d, p.d);
    OverIs(f, env, NegReduce(d), SqrtReduce(MinusReduce(Con(1.0), SqrReduce(a))), -p.d, f.sqrt(u));
  }

  lemma ArSinhRule(f: Elementary, env: Env, a: Expr, d: Expr, p: Dual)
    requires Given(f, env, a, d, p) && DArSinh(f, p).Some?
    ensures Is(f, env, DiffArSinh(a, d), DArSinh(f, p).value.d)
  {
    hide Is, Mul, Div, TimesReduce, OverReduce;
    ArSinhSlope(f, p);
    RootsAre(f, env, a, p.v);
    var u := Mul(p.v, p.v) + 1.0;
    SqrtIs(f, env, PlusReduce(SqrReduce(a), Con(1.0)), u);
    OverIs(f, env, d, SqrtReduce(PlusReduce(SqrReduce(a), Con(1.0))), p.d, f.sqrt(u));
  }

  lemma ArCoshRule(f: Elementary, env: Env, a: Expr, d: Expr, p: Dual)
    requires Given(f, env, a, d, p) && DArCosh(f, p).Some?
    ensures Is(f, env, DiffArCosh(a, d), DArCosh(f, p).value.d)
  {
    hide Is, Mul, Div, TimesReduce, OverReduce;
    ArCoshSlope(f, p);
    RootsAre(f, env, a, p.v);
    var u := Mul(p.v, p.v) - 1.0;
    SqrtIs(f, env, MinusReduce(SqrReduce(a), Con(1.0)), u);
    OverIs(f, env, d, SqrtReduce(MinusReduce(SqrReduce(a), Con(1.0))), p.d, f.sqrt(u));
  }

  lemma ArcTanRule(f: Elementary, env: Env, a: Expr, d: Expr, p: Dual)
    requires Given(f, env, a, d, p) && DAtan(f, p).Some?
    ensures Is(f, env, DiffArcTan(a, d), DAtan(f, p).value.d)
  {
    hide Is, Mul, Div, TimesReduce, OverReduce;
    AtanSlope(f, p);
    RootsAre(f, env, a, p.v);
    OverIs(f, env, d, PlusReduce(Con(1.0), SqrReduce(a)), p.d, 1.0 + Mul(p.v, p.v));
  }

  lemma ArcCotRule(f: Elementary, env: Env, a: Expr, d: Expr, p: Dual)
    requires Given(f, env, a, d, p) && DArcCot(f, p).Some?
    ensures Is(f, env, DiffArcCot(a, d), DArcCot(f, p).value.d)
  {
    hide Is, Mul, Div, TimesReduce, OverReduce;
    AtanSlope(f, p);
    DivNeg(p.d, 1.0 + Mul(p.v, p.v));
    RootsAre(f, env, a, p.v);
    NegIs(f, env, d, p.d);
    OverIs(f, env, NegReduce(d), PlusReduce(Con(1.0), SqrReduce(a)), -p.d, 1.0 + Mul(p.v, p.v));
  }

  lemma ArTanhRule(f: Elementary, env: Env, a: Expr, d: Expr, p: Dual)
    requires Given(f, env, a, d, p) && DArTanh(f, p).Some?
    ensures Is(f, env, DiffArTanh(a, d), DArTanh(f, p).value.d)
  {
    hide Is, Mul, Div, TimesReduce, OverReduce;
    ArTanhSlope(f, p);
    RootsAre(f, env, a, p.v);
    OverIs(f, env, d, MinusReduce(Con(1.0), SqrReduce(a)), p.d, 1.0 - Mul(p.v, p.v));
  }

  lemma ArCothRule(f: Elementary, env: Env, a: Expr, d: Expr, p: Dual)
    requires Given(f, env, a, d, p) && DArCoth(f, p).Some?
    ensures Is(f, env, DiffArCoth(a, d), DArCoth(f, p).value.d)
  {
    hide Is, Mul, Div, TimesReduce, OverReduce;
    ArCothSlope(f, p);
    RootsAre(f, env, a, p.v);
    NegIs(f, env, d, p.d);
    OverIs(f, env, NegReduce(d), MinusReduce(SqrReduce(a), Con(1.0)), -p.d, Mul(p.v, p.v) - 1.0);
  }

  lemma SinhRule(f: Elementary, env: Env, a: Expr, d: Expr, p: Dual)
    requires Given(f, env, a, d, p)
    ensures Is(f, env, DiffSinh(a, d), DSinh(f, p).d)
  {
    hide Is, Mul, Div, TimesReduce, OverReduce;
    SinhCoshSlope(f, p);
    AppIs(f, env, Cosh, d, a, p.d, p.v);
  }

  lemma CoshRule(f: Elementary, env: Env, a: Expr, d: Expr, p: Dual)
    requires Given(f, env, a, d, p)
    ensures Is(f, env, DiffCosh(a, d), DCosh(f, p).d)
  {
    hide Is, Mul, Div, TimesReduce, OverReduce;
    SinhCoshSlope(f, p);
    AppIs(f, env, Sinh, d, a, p.d, p.v);
  }

  lemma TanhRule(f: Elementary, env: Env, a: Expr, d: Expr, p: Dual)
    requires Given(f, env, a, d, p) && DTanh(f, p).Some?
    ensures Is(f, env, DiffTanh(f, a, d), DTanh(f, p).value.d)
  {
    hide Is, Mul, Div, TimesReduce, OverReduce;
    SinhCoshSlope(f, p);
    HyperbolicUnit(f, p.v);
    var s, c := SinhValue(f, p.v), CoshValue(f, p.v);
    TanhSlope(s, c, p.d);
    IsApp1(f, env, Cosh, a, p.v, CoshValue(f, p.v));
    SquareIs(f, env, App1(Cosh, a), c);
    OverIs(f, env, d, PowerReduce(f, App1(Cosh, a), Con(2.0)), p.d, Mul(c, c));
  }

  lemma CothRule(f: Elementary, env: Env, a: Expr, d: Expr, p: Dual)
    requires Given(f, env, a, d, p) && DCoth(f, p).Some?
    ensures Is(f, env, DiffCoth(f, a, d), DCoth(f, p).value.d)
  {
    hide Is, Mul, Div, TimesReduce, OverReduce;
    SinhCoshSlope(f, p);
    HyperbolicUnit(f, p.v);
    var s, c := SinhValue(f, p.v), CoshValue(f, p.v);
    var t := DDiv(DSinh(f, p), DCosh(f, p)).value;
    TanhSlope(s, c, p.d);
    DivTimes(s, c);
    if s == 0.0 { assert false by { NonZero(t.v, c); } }
    CothSlope(s, c, t.v, t.d, p.d);
    NegIs(f, env, d, p.d);
    IsApp1(f, env, Sinh, a, p.v, SinhValue(f, p.v));
    SquareIs(f, env, App1(Sinh, a), s);
    OverIs(f, env, NegReduce(d), PowerReduce(f, App1(Sinh, a), Con(2.0)), -p.d, Mul(s, s));
  }

  lemma LimExpRule(f: Elementary, env: Env, a: Expr, d: Expr, p: Dual)
    requires Given(f, env, a, d, p)
    ensures Is(f, env, DiffLimExp(f, a, d), DLimExp(f, p).d)
  {
    assert Mul(0.0, 1.0 + (p.v - f.limitexp)) == 0.0;
    hide Is, Mul, Div, TimesReduce, OverReduce;
    var L := f.limitexp;
    LimitedExpIs(f, env, a, p.v);
    var slope := if p.v < L then f.exp(p.v) else f.exp(L);
    TimesIs(f, env, d, Ite(App2(Less, a, Con(L)), App1(Exp, a), Con(f.exp(L))), p.d, slope);
    Commutes(p.d, slope);
  }

  lemma VtRule(f: Elementary, env: Env, a: Expr, d: Expr, p: Dual)
    requires Given(f, env, a, d, p) && DVt(f, p).Some?
    ensures Is(f, env, DiffVt(f, a, d), DVt(f, p).value.d)
  {
    assert Mul(p.v, 0.0) == 0.0;
    hide Is, Mul, Div, TimesReduce, OverReduce;
    ConIs(f, env, f.kBoverQ);
    TimesIs(f, env, d, Con(f.kBoverQ), p.d, f.kBoverQ);
  }

  lemma ArSechRule(f: Elementary, env: Env, a: Expr, d: Expr, p: Dual)
    requires Given(f, env, a, d, p) && DArSech(f, p).Some?
    ensures Is(f, env, DiffArSech(a, d), DArSech(f, p).value.d)
  {
    hide Is, Mul, Div, TimesReduce, OverReduce;
    ArSechSlope(f, p);
    RootsAre(f, env, a, p.v);
    var u := 1.0 - Mul(p.v, p.v);
    SqrtIs(f, env, MinusReduce(Con(1.0), SqrReduce(a)), u);
    TimesIs(f, env, a, SqrtReduce(MinusReduce(Con(1.0), SqrReduce(a))), p.v, f.sqrt(u));
    NegIs(f, env, d, p.d);
    OverIs(f, env, NegReduce(d), TimesReduce(a, SqrtReduce(MinusReduce(Con(1.0), SqrReduce(a)))), -p.d, Mul(p.v, f.sqrt(u)));
  }

  // --------------------------------------- inverse functions of the reciprocal

  /** These three rules leave out a sign: they hold exactly where the argument is
      positive or does not move. */
  lemma ArcSecRule(f: Elementary, env: Env, a: Expr, d: Expr, p: Dual)
    requires Given(f, env, a, d, p) && DArcSec(f, p).Some?
    ensures Is(f, env, DiffArcSec(a, d), DArcSec(f, p).value.d) <==> p.v > 0.0 || p.d == 0.0
  {
    hide Mul, Div, TimesReduce, OverReduce;
    ArcSecSlope(f, p);
    RootsAre(f, env, a, p.v);
    var u := Mul(p.v, p.v) - 1.0;
    SqrtIs(f, env, MinusReduce(SqrReduce(a), Con(1.0)), u);
    TimesIs(f, env, a, SqrtReduce(MinusReduce(SqrReduce(a), Con(1.0))), p.v, f.sqrt(u));
    OverIs(f, env, d, TimesReduce(a, SqrtReduce(MinusReduce(SqrReduce(a), Con(1.0)))), p.d, Mul(p.v, f.sqrt(u)));
    ZeroQuotient(p.d, Mul(p.v, f.sqrt(u)));
  }

  lemma ArcCosecRule(f: Elementary, env: Env, a: Expr, d: Expr, p: Dual)
    requires Given(f, env, a, d, p) && DArcCosec(f, p).Some?
    ensures Is(f, env, DiffArcCosec(a, d), DArcCosec(f, p).value.d) <==> p.v > 0.0 || p.d == 0.0
  {
    hide Mul, Div, TimesReduce, OverReduce;
    ArcCosecSlope(f, p);
    RootsAre(f, env, a, p.v);
    var u := Mul(p.v, p.v) - 1.0;
    SqrtIs(f, env, MinusReduce(SqrReduce(a), Con(1.0)), u);
    TimesIs(f, env, a, SqrtReduce(MinusReduce(SqrReduce(a), Con(1.0))), p.v, f.sqrt(u));
    NegIs(f, env, d, p.d);
    OverIs(f, env, NegReduce(d), TimesReduce(a, SqrtReduce(MinusReduce(SqrReduce(a), Con(1.0)))), -p.d, Mul(p.v, f.sqrt(u)));
    ZeroQuotient(-p.d, Mul(p.v, f.sqrt(u)));
  }

  lemma ArCosechRule(f: Elementary, env: Env, a: Expr, d: Expr, p: Dual)
    requires Given(f, env, a, d, p) && DArCosech(f, p).Some?
    ensures Is(f, env, DiffArCosech(a, d), DArCosech(f, p).value.d) <==> p.v > 0.0 || p.d == 0.0
  {
    hide Mul, Div, TimesReduce, OverReduce;
    ArCosechSlope(f, p);
    RootsAre(f, env, a, p.v);
    var u := 1.0 + Mul(p.v, p.v);
    SqrtIs(f, env, PlusReduce(Con(1.0), SqrReduce(a)), u);
    TimesIs(f, env, a, SqrtReduce(PlusReduce(Con(1.0), SqrReduce(a))), p.v, f.sqrt(u));
    NegIs(f, env, d, p.d);
    OverIs(f, env, NegReduce(d), TimesReduce(a, SqrtReduce(PlusReduce(Con(1.0), SqrReduce(a)))), -p.d, Mul(p.v, f.sqrt(u)));
    ZeroQuotient(-p.d, Mul(p.v, f.sqrt(u)));
  }
}
