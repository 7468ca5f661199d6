/** Symbolic differentiation is correct: the derivative of an expression evaluates to
    what forward differentiation computes. */
module DerivativeSound {
  import opened Arithmetic
  import opened AreaSlopes
  import opened DerivativeRules
  import opened Differentiate
  import opened DualNumbers
  import opened Expressions
  import opened Options
  import opened Simplify
  import opened Slopes

  // --------------------------------------------------------------- the values

  lemma HyperbolicValue(f: Elementary, p: Dual)
    ensures DSinh(f, p).v == SinhValue(f, p.v) && DCosh(f, p).v == CoshValue(f, p.v)
    ensures DTanh(f, p).Some? ==> Quotient(SinhValue(f, p.v), CoshValue(f, p.v)) == Some(DTanh(f, p).value.v)
    ensures DCoth(f, p).Some? ==> CothValue(f, p.v) == Some(DCoth(f, p).value.v)
  {
  }

  lemma CircularValue(f: Elementary, p: Dual)
    ensures DTan(f, p).Some? ==> Quotient(f.sin(p.v), f.cos(p.v)) == Some(DTan(f, p).value.v)
    ensures DSec(f, p).Some? ==> Quotient(1.0, f.cos(p.v)) == Some(DSec(f, p).value.v)
    ensures DCot(f, p).Some? ==> CotValue(f, p.v) == Some(DCot(f, p).value.v)
    ensures DCosec(f, p).Some? ==> Quotient(1.0, f.sin(p.v)) == Some(DCosec(f, p).value.v)
  {
  }

  lemma SincValue(f: Elementary, p: Dual)
    ensures DSinc(f, p).Some? ==> p.v != 0.0 && DSinc(f, p).value.v == Div(f.sin(p.v), p.v)
  {
  }

  lemma ArcValue(f: Elementary, p: Dual)
    ensures DAsin(f, p).Some? ==> AsinValue(f, p.v) == Some(DAsin(f, p).value.v)
    ensures DAcos(f, p).Some? ==> AcosValue(f, p.v) == Some(DAcos(f, p).value.v)
    ensures DAtan(f, p).Some? ==> DAtan(f, p).value.v == f.atan(p.v)
  {
  }

  lemma LogValue(f: Elementary, p: Dual)
    ensures DLn(f, p).Some? ==> LnValue(f, p.v) == Some(DLn(f, p).value.v)
    ensures DLog10(f, p).Some? ==> Log10Value(f, p.v) == Some(DLog10(f, p).value.v)
    ensures DLog2(f, p).Some? ==> Log2Value(f, p.v) == Some(DLog2(f, p).value.v)
  {
  }

  lemma RootValue(f: Elementary, p: Dual)
    ensures DSqrt(f, p).Some? ==> SqrtValue(f, p.v) == Some(DSqrt(f, p).value.v)
  {
  }

  lemma AreaValue(f: Elementary, p: Dual)
    ensures DArSinh(f, p).Some? ==> ArSinhValue(f, p.v) == Some(DArSinh(f, p).value.v)
    ensures DArCosh(f, p).Some? ==> ArCoshValue(f, p.v) == Some(DArCosh(f, p).value.v)
  {
    var u, w := DAdd(DMul(p, p), Fixed(1.0)), DSub(DMul(p, p), Fixed(1.0));
    RootValue(f, u);
    RootValue(f, w);
    hide DLn, DSqrt, LnValue, SqrtValue;
    if DSqrt(f, u).Some? { LogValue(f, DAdd(p, DSqrt(f, u).value)); }
    if DSqrt(f, w).Some? { LogValue(f, DAdd(p, DSqrt(f, w).value)); }
  }

  lemma LogQuotientValue(f: Elementary, x: Dual, y: Dual)
    ensures DHalfLnQuotient(f, x, y).Some? ==> HalfLnQuotient(f, x.v, y.v) == Some(DHalfLnQuotient(f, x, y).value.v)
  {
  }

  lemma ReciprocalValue(f: Elementary, p: Dual)
    ensures DArcSec(f, p).Some? ==> ArcSecValue(f, p.v) == Some(DArcSec(f, p).value.v)
    ensures DArcCosec(f, p).Some? ==> ArcCosecValue(f, p.v) == Some(DArcCosec(f, p).value.v)
    ensures DArSech(f, p).Some? ==> ArSechValue(f, p.v) == Some(DArSech(f, p).value.v)
    ensures DArCosech(f, p).Some? ==> ArCosechValue(f, p.v) == Some(DArCosech(f, p).value.v)
  {
    hide DAsin, DAcos, DArSinh, DArCosh, AsinValue, AcosValue, ArSinhValue, ArCoshValue;
    var r := DDiv(Fixed(1.0), p);
    if r.Some? {
      ArcValue(f, r.value);
      AreaValue(f, r.value);
    }
  }

  /** Forward differentiation computes the value of a function along with its slope. */
  lemma ValueIs(f: Elementary, op: Op1, p: Dual)
    requires Forward1(f, op, p).Some?
    ensures Value1(f, op, p.v) == Some(Forward1(f, op, p).value.v)
  {
    hide DSinc, DLn, DLog10, DLog2, DSqrt, DTan, DSec, DCot, DCosec, DAsin, DAcos, DAtan, DArcSec, DArcCosec, DSinh, DCosh, DTanh, DCoth,
      DArSinh, DArCosh, DArSech, DArCosech, DHalfLnQuotient, DDiv, LnValue, Log10Value, Log2Value, SqrtValue, CotValue, AsinValue,
      AcosValue, ArcSecValue, ArcCosecValue, CothValue, ArSinhValue, ArCoshValue, ArSechValue, ArCosechValue, HalfLnQuotient, Quotient,
      SinhValue, CoshValue, Mul, Div;
    match op
    case Ln | Log10 | Log2 => LogValue(f, p);
    case Sqrt => RootValue(f, p);
    case Sinc => SincValue(f, p);
    case Tan | Sec | Cot | Cosec => CircularValue(f, p);
    case Sinh | Cosh | Tanh | Coth => HyperbolicValue(f, p);
    case ArcSin | ArcCos | ArcTan | ArcCot => ArcValue(f, p);
    case ArSinh | ArCosh => AreaValue(f, p);
    case ArcSec | ArcCosec | ArSech | ArCosech => ReciprocalValue(f, p);
    case ArTanh => LogQuotientValue(f, DAdd(Fixed(1.0), p), DSub(Fixed(1.0), p));
    case ArCoth => LogQuotientValue(f, DAdd(p, Fixed(1.0)), DSub(p, Fixed(1.0)));
    case _ =>
  }

  // ------------------------------------------------------- the one-argument rules

  /** Where the three rules that leave out a sign are right. */
  ghost predicate Regular1(op: Op1, p: Dual) {
    op == ArcSec || op == ArcCosec || op == ArCosech ==> p.v > 0.0 || p.d == 0.0
  }

  lemma StepSlope(p: Dual)
    ensures DStep(p).Some? ==> DStep(p).value.d == 0.0
    ensures DSign(p).Some? ==> DSign(p).value.d == 0.0
  {
  }

  lemma SimpleRules(f: Elementary, env: Env, op: Op1, a: Expr, d: Expr, p: Dual)
    requires Given(f, env, a, d, p) && Forward1(f, op, p).Some? && op in {Plus1, Minus1, Step, Sign}
    ensures Is(f, env, Rule1(f, op, a, d), Forward1(f, op, p).value.d)
  {
    match op
    case Plus1 =>
    case Minus1 => NegIs(f, env, d, p.d);
    case Step | Sign =>
      StepSlope(p);
      ConIs(f, env, 0.0);
  }

  /** Every rule yields the slope that forward differentiation finds. */
  lemma Rule1Is(f: Elementary, env: Env, op: Op1, a: Expr, d: Expr, p: Dual)
    requires Given(f, env, a, d, p) && Forward1(f, op, p).Some? && Regular1(op, p)
    ensures Is(f, env, Rule1(f, op, a, d), Forward1(f, op, p).value.d)
  {
    hide Given, Is, NegReduce, DiffLn, DiffLog10, DiffLog2, DiffSqrt, DiffExp, DiffSinc, DiffNorm, DiffSin, DiffCos, DiffTan, DiffSec,
      DiffCot, DiffCosec, DiffAbs, DiffArcSin, DiffArcCos, DiffArcTan, DiffArcCot, DiffArcSec, DiffArcCosec, DiffSqr,
      DiffSinh, DiffCosh, DiffTanh, DiffCoth, DiffArSinh, DiffArCosh, DiffArTanh, DiffArCoth, DiffArSech, DiffArCosech,
      DiffLimExp, DiffVt, DAbs, DAcos, DArCosech, DArCosh, DArCoth, DArSech, DArSinh, DArTanh, DArcCosec, DArcCot,
      DArcSec, DAsin, DAtan, DCos, DCosec, DCosh, DCot, DCoth, DExp, DLimExp, DLn, DLog10, DLog2, DMul, DSec, DSign,
      DSin, DSinc, DSinh, DSqrt, DStep, DTan, DTanh, DVt;
    match op
    case Plus1 | Minus1 | Step | Sign => SimpleRules(f, env, op, a, d, p);
    case Ln => LnRule(f, env, a, d, p);
    case Log10 => Log10Rule(f, env, a, d, p);
    case Log2 => Log2Rule(f, env, a, d, p);
    case Sqrt => SqrtRule(f, env, a, d, p);
    case Exp => ExpRule(f, env, a, d, p);
    case Sinc => SincRule(f, env, a, d, p);
    case Norm => NormRule(f, env, a, d, p);
    case Sin => SinRule(f, env, a, d, p);
    case Cos => CosRule(f, env, a, d, p);
    case Tan => TanRule(f, env, a, d, p);
    case Sec => SecRule(f, env, a, d, p);
    case Cot => CotRule(f, env, a, d, p);
    case Cosec => CosecRule(f, env, a, d, p);
    case AbsOf => AbsOfRule(f, env, a, d, p);
    case ArcSin => ArcSinRule(f, env, a, d, p);
    case ArcCos => ArcCosRule(f, env, a, d, p);
    case ArcTan => ArcTanRule(f, env, a, d, p);
    case ArcCot => ArcCotRule(f, env, a, d, p);
    case ArcSec => ArcSecRule(f, env, a, d, p);
    case ArcCosec => ArcCosecRule(f, env, a, d, p);
    case Sqr => SqrRule(f, env, a, d, p);
    case Sinh => SinhRule(f, env, a, d, p);
    case Cosh => CoshRule(f, env, a, d, p);
    case Tanh => TanhRule(f, env, a, d, p);
    case Coth => CothRule(f, env, a, d, p);
    case ArSinh => ArSinhRule(f, env, a, d, p);
    case ArCosh => ArCoshRule(f, env, a, d, p);
    case ArTanh => ArTanhRule(f, env, a, d, p);
    case ArCoth => ArCothRule(f, env, a, d, p);
    case ArSech => ArSechRule(f, env, a, d, p);
    case ArCosech => ArCosechRule(f, env, a, d, p);
    case LimExp => LimExpRule(f, env, a, d, p);
    case Vt => VtRule(f, env, a, d, p);
  }

  // ------------------------------------------------------- the two-argument rules

  /** a and b have the values of p and q, d0 and d1 are expressions for their
      slopes; literals do not move. */
  ghost predicate Given2(f: Elementary, env: Env, a: Expr, b: Expr, d0: Expr, d1: Expr, p: Dual, q: Dual) {
    && Given(f, env, a, d0, p) && Given(f, env, b, d1, q)
    && (IsConst(a) ==> p.d == 0.0) && (IsConst(b) ==> q.d == 0.0)
  }

  lemma TimesRule(f: Elementary, env: Env, a: Expr, b: Expr, d0: Expr, d1: Expr, p: Dual, q: Dual)
    requires Given2(f, env, a, b, d0, d1, p, q)
    ensures Is(f, env, Rule2(f, Times, a, b, d0, d1), DMul(p, q).d)
  {
    TimesIs(f, env, a, d1, p.v, q.d);
    TimesIs(f, env, b, d0, q.v, p.d);
    PlusIs(f, env, TimesReduce(a, d1), TimesReduce(b, d0), Mul(p.v, q.d), Mul(q.v, p.d));
    Commutes(q.v, p.d);
    if IsConst(a) && IsConst(b) {
      MulUnits(p.v, q.d);
      MulUnits(p.d, q.v);
      ConIs(f, env, 0.0);
    }
  }

  /** The quotient rule over the square of the denominator. */
  lemma QuotientRule(x: real, y: real, d: real, e: real)
    requires y != 0.0
    ensures Mul(y, y) != 0.0
    ensures Div(d - Mul(Div(x, y), e), y) == Div(Mul(y, d) - Mul(x, e), Mul(y, y))
  {
    NonZero(y, y);
    var q := Div(x, y);
    DivTimes(x, y);
    var n, w := Mul(y, d) - Mul(x, e), Mul(y, y);
    var z := Div(n, w);
    DivTimes(n, w);
    assert (z * y) * y == z * (y * y);
    assert (d - q * e) * y == y * d - (q * y) * e;
    SameFactor(z * y, d - q * e, y);
    DivIs(d - Mul(q, e), y, z);
  }

  lemma OverRule(f: Elementary, env: Env, a: Expr, b: Expr, d0: Expr, d1: Expr, p: Dual, q: Dual)
    requires Given2(f, env, a, b, d0, d1, p, q) && DDiv(p, q).Some?
    ensures Is(f, env, Rule2(f, Over, a, b, d0, d1), DDiv(p, q).value.d)
  {
    hide Is, Mul, Div;
    QuotientRule(p.v, q.v, p.d, q.d);
    TimesIs(f, env, a, d1, p.v, q.d);
    TimesIs(f, env, b, d0, q.v, p.d);
    MinusIs(f, env, TimesReduce(b, d0), TimesReduce(a, d1), Mul(q.v, p.d), Mul(p.v, q.d));
    SqrIs(f, env, b, q.v);
    OverIs(f, env, MinusReduce(TimesReduce(b, d0), TimesReduce(a, d1)), SqrReduce(b), Mul(q.v, p.d) - Mul(p.v, q.d), Mul(q.v, q.v));
    if IsConst(a) && IsConst(b) {
      MulUnits(q.v, p.d);
      MulUnits(p.v, q.d);
      DivUnits(0.0, Mul(q.v, q.v));
      ConIs(f, env, 0.0);
    }
  }

  lemma HypotRule(f: Elementary, env: Env, a: Expr, b: Expr, d0: Expr, d1: Expr, p: Dual, q: Dual)
    requires Given2(f, env, a, b, d0, d1, p, q) && DSqrt(f, DAdd(DMul(p, p), DMul(q, q))).Some?
    ensures Is(f, env, Rule2(f, Hypot, a, b, d0, d1), DSqrt(f, DAdd(DMul(p, p), DMul(q, q))).value.d)
  {
    hide Is, Mul, Div, TimesReduce, OverReduce, DSqrt;
    var u := DAdd(DMul(p, p), DMul(q, q));
    SqrtAtZero(f, u);
    SqrtSlope(f, u);
    HypotIs(f, env, a, b, p.v, q.v);
    TimesIs(f, env, d0, a, p.d, p.v);
    TimesIs(f, env, d1, b, q.d, q.v);
    PlusIs(f, env, TimesReduce(d0, a), TimesReduce(d1, b), Mul(p.d, p.v), Mul(q.d, q.v));
    OverIs(f, env, PlusReduce(TimesReduce(d0, a), TimesReduce(d1, b)), HypotReduce(f, a, b),
           Mul(p.d, p.v) + Mul(q.d, q.v), f.sqrt(u.v));
    HalfSum(p.v, p.d, q.v, q.d);
  }

  lemma HalfSum(x: real, d: real, y: real, e: real)
    ensures Mul(0.5, (Mul(x, d) + Mul(d, x)) + (Mul(y, e) + Mul(e, y))) == Mul(d, x) + Mul(e, y)
  {
  }

  /** A power with a positive base. */
  lemma PowerRuleIs(f: Elementary, env: Env, a: Expr, b: Expr, d0: Expr, d1: Expr, p: Dual, q: Dual)
    requires Given2(f, env, a, b, d0, d1, p, q) && p.v > 0.0 && DPow(f, p, q).Some?
    ensures Is(f, env, PowerRule(f, a, b, d0, d1), DPow(f, p, q).value.d)
  {
    if IsConst(a) && IsConst(b) {
      FixedPowSlope(f, p, q);
      MulUnits(Mul(q.v, PowValue(f, p.v, q.v - 1.0).value), p.d);
      ConIs(f, env, 0.0);
    } else if IsZero(d1) {
      FixedPowSlope(f, p, q);
      FixedPowerIs(f, env, a, b, d0, p, q.v);
    } else {
      GeneralPowerIs(f, env, a, b, d0, d1, p, q);
    }
  }

  lemma FixedPowerIs(f: Elementary, env: Env, a: Expr, b: Expr, d0: Expr, p: Dual, y: real)
    requires Given(f, env, a, d0, p) && Is(f, env, b, y) && PowValue(f, p.v, y - 1.0).Some? && !IsZero(a)
    ensures Is(f, env, TimesReduce(TimesReduce(b, PowerReduce(f, a, MinusReduce(b, Con(1.0)))), d0),
               Mul(Mul(y, PowValue(f, p.v, y - 1.0).value), p.d))
  {
    var c := MinusReduce(b, Con(1.0));
    ConIs(f, env, 1.0);
    MinusIs(f, env, b, Con(1.0), y, 1.0);
    PowerIs(f, env, a, c, p.v, y - 1.0);
    var R := PowValue(f, p.v, y - 1.0).value;
    TimesIs(f, env, b, PowerReduce(f, a, c), y, R);
    TimesIs(f, env, TimesReduce(b, PowerReduce(f, a, c)), d0, Mul(y, R), p.d);
  }

  lemma LogarithmicSum(f: Elementary, env: Env, a: Expr, b: Expr, d0: Expr, d1: Expr, p: Dual, q: Dual)
    requires Given2(f, env, a, b, d0, d1, p, q) && p.v > 0.0
    ensures Is(f, env, PlusReduce(TimesReduce(d1, LnReduce(f, a)), OverReduce(TimesReduce(b, d0), a)),
               Mul(q.d, f.ln(p.v)) + Div(Mul(q.v, p.d), p.v))
  {
    hide Is, Mul, Div, PlusReduce, TimesReduce, OverReduce, LnReduce;
    LnIs(f, env, a, p.v);
    TimesIs(f, env, d1, LnReduce(f, a), q.d, f.ln(p.v));
    TimesIs(f, env, b, d0, q.v, p.d);
    OverIs(f, env, TimesReduce(b, d0), a, Mul(q.v, p.d), p.v);
    var s, t := Mul(q.d, f.ln(p.v)), Div(Mul(q.v, p.d), p.v);
    PlusIs(f, env, TimesReduce(d1, LnReduce(f, a)), OverReduce(TimesReduce(b, d0), a), s, t);
  }

  lemma GeneralPowerIs(f: Elementary, env: Env, a: Expr, b: Expr, d0: Expr, d1: Expr, p: Dual, q: Dual)
    requires Given2(f, env, a, b, d0, d1, p, q) && p.v > 0.0 && DPow(f, p, q).Some?
    ensures Is(f, env, TimesReduce(PowerReduce(f, a, b),
                         PlusReduce(TimesReduce(d1, LnReduce(f, a)), OverReduce(TimesReduce(b, d0), a))), DPow(f, p, q).value.d)
  {
    assert !IsZero(a);
    hide Is, Mul, Div, PlusReduce, TimesReduce, OverReduce, PowerReduce, LnReduce;
    LogarithmicSum(f, env, a, b, d0, d1, p, q);
    PowSlope(f, p, q);
    PowerIs(f, env, a, b, p.v, q.v);
    TimesIs(f, env, PowerReduce(f, a, b), PlusReduce(TimesReduce(d1, LnReduce(f, a)), OverReduce(TimesReduce(b, d0), a)),
            PowValue(f, p.v, q.v).value, Mul(q.d, f.ln(p.v)) + Div(Mul(q.v, p.d), p.v));
  }

  /** A power with an exponent free of the variable and a base that is not positive. */
  lemma FixedExponent(f: Elementary, env: Env, a: Expr, b: Expr, d0: Expr, p: Dual, q: Dual)
    requires Given2(f, env, a, b, d0, Con(0.0), p, q) && p.v <= 0.0 && DPowInt(p, q.v).Some?
    ensures Is(f, env, App2(Power, a, b), DPowInt(p, q.v).value.v)
    ensures Is(f, env, PowerRule(f, a, b, d0, Con(0.0)), DPowInt(p, q.v).value.d)
  {
    IntPowSlope(f, p, q.v);
    EvalApp2(f, env, Power, a, b, p.v, q.v);
    var R := PowValue(f, p.v, q.v - 1.0).value;
    MulUnits(Mul(q.v, R), p.d);
    ConIs(f, env, 0.0);
    if !IsConst(a) { FixedPowerIs(f, env, a, b, d0, p, q.v); } else { ConstantBase(f, env, a, b, d0, p, q.v); }
  }

  lemma ConstantBase(f: Elementary, env: Env, a: Expr, b: Expr, d0: Expr, p: Dual, y: real)
    requires Given(f, env, a, d0, p) && Is(f, env, b, y) && PowValue(f, p.v, y - 1.0).Some? && IsConst(a) && p.d == 0.0
    ensures Is(f, env, PowerRule(f, a, b, d0, Con(0.0)), 0.0)
  {
    var c := MinusReduce(b, Con(1.0));
    ConIs(f, env, 1.0);
    ConIs(f, env, 0.0);
    MinusIs(f, env, b, Con(1.0), y, 1.0);
    var w := if IsZero(a) then 0.0 else PowValue(f, p.v, y - 1.0).value;
    if !IsZero(a) { PowerIs(f, env, a, c, p.v, y - 1.0); }
    TimesIs(f, env, b, PowerReduce(f, a, c), y, w);
    TimesIs(f, env, TimesReduce(b, PowerReduce(f, a, c)), d0, Mul(y, w), 0.0);
    MulUnits(Mul(y, w), 0.0);
  }

  // ------------------------------------------------------------ the main theorem

  /** No inverse function of a reciprocal is taken at a moving negative argument. */
  ghost predicate Regular(f: Elementary, env: Env, x: string, e: Expr) {
    match e
    case Con(_) => true
    case Ref(_) => true
    case App1(op, a) => Regular(f, env, x, a) && (Forward(f, env, x, a).Some? ==> Regular1(op, Forward(f, env, x, a).value))
    case App2(_, a, b) => Regular(f, env, x, a) && Regular(f, env, x, b)
    case Ite(_, a, b) => Regular(f, env, x, a) && Regular(f, env, x, b)
  }

  ghost predicate Correct(f: Elementary, env: Env, x: string, e: Expr, w: Dual) {
    Is(f, env, e, w.v) && Is(f, env, Derivative(f, e, x), w.d)
  }

  lemma Op1Correct(f: Elementary, env: Env, x: string, op: Op1, a: Expr, p: Dual)
    requires Lawful(f) && env("e") == f.euler && Correct(f, env, x, a, p)
    requires Forward1(f, op, p).Some? && Regular1(op, p)
    ensures Correct(f, env, x, App1(op, a), Forward1(f, op, p).value)
  {
    hide Forward1, Rule1, Value1;
    ValueIs(f, op, p);
    EvalApp1(f, env, op, a, p.v);
    Rule1Is(f, env, op, a, Derivative(f, a, x), p);
  }

  /** Literals have a fixed value. */
  lemma LiteralIsFixed(f: Elementary, env: Env, x: string, e: Expr)
    requires Forward(f, env, x, e).Some?
    ensures IsConst(e) ==> Forward(f, env, x, e).value.d == 0.0
  {
  }

  lemma SumRule(f: Elementary, env: Env, a: Expr, b: Expr, d0: Expr, d1: Expr, p: Dual, q: Dual)
    requires Given2(f, env, a, b, d0, d1, p, q)
    ensures Is(f, env, Rule2(f, Plus, a, b, d0, d1), p.d + q.d)
    ensures Is(f, env, Rule2(f, Minus, a, b, d0, d1), p.d - q.d)
  {
    EvalApp2(f, env, Plus, d0, d1, p.d, q.d);
    EvalApp2(f, env, Minus, d0, d1, p.d, q.d);
    PlusIs(f, env, d0, d1, p.d, q.d);
    MinusIs(f, env, d0, d1, p.d, q.d);
  }

  lemma Rule2Is(f: Elementary, env: Env, op: Op2, a: Expr, b: Expr, d0: Expr, d1: Expr, p: Dual, q: Dual)
    requires Given2(f, env, a, b, d0, d1, p, q)
    requires Forward2(f, op, p, q).Some? && (op == Power ==> p.v > 0.0)
    ensures Is(f, env, Rule2(f, op, a, b, d0, d1), Forward2(f, op, p, q).value.d)
  {
    hide Given2, Is, DMul, DDiv, DSqrt, DPow, PowerRule, PlusReduce, MinusReduce, OverReduce;
    match op
    case Plus | Minus => SumRule(f, env, a, b, d0, d1, p, q);
    case Times => TimesRule(f, env, a, b, d0, d1, p, q);
    case Over => OverRule(f, env, a, b, d0, d1, p, q);
    case Power => PowerRuleIs(f, env, a, b, d0, d1, p, q);
    case Hypot => HypotRule(f, env, a, b, d0, d1, p, q);
  }

  lemma Op2Correct(f: Elementary, env: Env, x: string, op: Op2, a: Expr, b: Expr, p: Dual, q: Dual)
    requires Given2(f, env, a, b, Derivative(f, a, x), Derivative(f, b, x), p, q)
    requires Forward2(f, op, p, q).Some? && (op == Power ==> p.v > 0.0)
    ensures Correct(f, env, x, App2(op, a, b), Forward2(f, op, p, q).value)
  {
    hide Forward2, Rule2, Value2;
    EvalApp2(f, env, op, a, b, p.v, q.v);
    Op2Value(f, op, p, q);
    Rule2Is(f, env, op, a, b, Derivative(f, a, x), Derivative(f, b, x), p, q);
  }

  lemma Op2Value(f: Elementary, op: Op2, p: Dual, q: Dual)
    requires Lawful(f) && Forward2(f, op, p, q).Some? && (op == Power ==> p.v > 0.0)
    ensures Value2(f, op, p.v, q.v) == Some(Forward2(f, op, p, q).value.v)
  {
  }

  /** Wherever forward differentiation finds a value and a slope, the expression has
      that value, and its symbolic derivative that slope as its value. */
  lemma {:induction false} DerivativeIsSound(f: Elementary, env: Env, x: string, e: Expr)
    requires Lawful(f) && env("e") == f.euler && Forward(f, env, x, e).Some? && Regular(f, env, x, e)
    ensures Correct(f, env, x, e, Forward(f, env, x, e).value)
  {
    match e
    case Con(_) =>
    case Ref(_) =>
    case App1(op, a) =>
      DerivativeIsSound(f, env, x, a);
      Op1Correct(f, env, x, op, a, Forward(f, env, x, a).value);
    case App2(op, a, b) =>
      DerivativeIsSound(f, env, x, a);
      DerivativeIsSound(f, env, x, b);
      App2Correct(f, env, x, op, a, b);
    case Ite(c, a, b) =>
      if Eval(f, env, c).value != 0.0 { DerivativeIsSound(f, env, x, a); } else { DerivativeIsSound(f, env, x, b); }
      IteCorrect(f, env, x, c, a, b);
  }

  lemma App2Correct(f: Elementary, env: Env, x: string, op: Op2, a: Expr, b: Expr)
    requires Lawful(f) && env("e") == f.euler && Forward(f, env, x, App2(op, a, b)).Some?
    requires Correct(f, env, x, a, Forward(f, env, x, a).value) && Correct(f, env, x, b, Forward(f, env, x, b).value)
    ensures Correct(f, env, x, App2(op, a, b), Forward(f, env, x, App2(op, a, b)).value)
  {
    var p, q := Forward(f, env, x, a).value, Forward(f, env, x, b).value;
    LiteralIsFixed(f, env, x, a);
    LiteralIsFixed(f, env, x, b);
    if op == Power && p.v <= 0.0 {
      FreeIsFlat(f, b, x);
      FixedExponent(f, env, a, b, Derivative(f, a, x), p, q);
    } else {
      Op2Correct(f, env, x, op, a, b, p, q);
    }
  }

  lemma IteCorrect(f: Elementary, env: Env, x: string, c: Expr, a: Expr, b: Expr)
    requires Forward(f, env, x, Ite(c, a, b)).Some?
    requires var t := Eval(f, env, c).value != 0.0;
             Correct(f, env, x, if t then a else b, Forward(f, env, x, Ite(c, a, b)).value)
    ensures Correct(f, env, x, Ite(c, a, b), Forward(f, env, x, Ite(c, a, b)).value)
  {
  }

  lemma SecantMoves(f: Elementary)
    requires Lawful(f)
    ensures DArcSec(f, Dual(-2.0, 1.0)).Some?
  {
    DivIs(1.0, -2.0, -0.5);
    AcosMoves(f, DDiv(Fixed(1.0), Dual(-2.0, 1.0)).value);
  }

  lemma SecantUnfolded(f: Elementary, env: Env, x: string, p: Dual)
    requires p == Dual(env(x), 1.0)
    ensures Forward(f, env, x, App1(ArcSec, Ref(x))) == DArcSec(f, p)
    ensures Derivative(f, App1(ArcSec, Ref(x)), x) == DiffArcSec(Ref(x), Con(1.0))
  {
    hide DArcSec, DiffArcSec;
    assert Forward(f, env, x, Ref(x)) == Some(p);
    assert Derivative(f, Ref(x), x) == Con(1.0);
  }

  /** The derivative of arcsec at -2 has the wrong sign. */
  lemma SecantSignLeftOut(f: Elementary, env: Env, x: string)
    requires Lawful(f) && env("e") == f.euler && env(x) == -2.0
    ensures var e := App1(ArcSec, Ref(x));
            Forward(f, env, x, e).Some? && !Is(f, env, Derivative(f, e, x), Forward(f, env, x, e).value.d)
  {
    var p, e := Dual(-2.0, 1.0), App1(ArcSec, Ref(x));
    assert Given(f, env, Ref(x), Con(1.0), p);
    SecantMoves(f);
    SecantUnfolded(f, env, x, p);
    hide Given, DArcSec, DiffArcSec, Lawful, Is, Forward, Derivative;
    ArcSecRule(f, env, Ref(x), Con(1.0), p);
  }

  lemma AcosMoves(f: Elementary, r: Dual)
    requires Lawful(f) && r.v == -0.5
    ensures DAcos(f, r).Some?
  {
    var y := f.acos(r.v);
    assert LawsAt(f, r.v);
    SinCos(f, y);
    MulUnits(f.sin(y), 1.0);
    MulUnits(f.sin(y), f.sin(y));
    Halves(r.v);
  }

  lemma Halves(x: real)
    requires x == -0.5
    ensures Mul(x, x) == 0.25
  {
  }
}
