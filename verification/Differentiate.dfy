/** Symbolic differentiation, one rule for every function of the table. */
module Differentiate {
  import opened DualNumbers
  import opened Expressions
  import opened Options
  import opened Simplify

  // Each rule takes the argument a of its function and the derivative d of a.

  function DiffLn(a: Expr, d: Expr): Expr { OverReduce(d, a) }

  function DiffLog10(f: Elementary, a: Expr, d: Expr): Expr { OverReduce(OverReduce(d, a), LnReduce(f, Con(10.0))) }

  function DiffLog2(f: Elementary, a: Expr, d: Expr): Expr { OverReduce(OverReduce(d, a), LnReduce(f, Con(2.0))) }

  function DiffSqrt(a: Expr, d: Expr): Expr { OverReduce(TimesReduce(Con(0.5), d), SqrtReduce(a)) }

  function DiffExp(a: Expr, d: Expr): Expr { AppReduce(Exp, d, a) }

  function DiffSinc(a: Expr, d: Expr): Expr { TimesReduce(d, OverReduce(MinusReduce(App1(Cos, a), App1(Sinc, a)), a)) }

  function DiffNorm(a: Expr, d: Expr): Expr { TimesReduce(TimesReduce(d, Con(2.0)), a) }

  function DiffSin(a: Expr, d: Expr): Expr { AppReduce(Cos, d, a) }

  function DiffCos(a: Expr, d: Expr): Expr { AppReduce(Sin, NegReduce(d), a) }

  function DiffTan(f: Elementary, a: Expr, d: Expr): Expr { TimesReduce(d, PowerReduce(f, App1(Sec, a), Con(2.0))) }

  function DiffSec(f: Elementary, a: Expr, d: Expr): Expr {
    TimesReduce(d, OverReduce(App1(Sin, a), PowerReduce(f, App1(Cos, a), Con(2.0))))
  }

  function DiffCot(f: Elementary, a: Expr, d: Expr): Expr { TimesReduce(NegReduce(d), PowerReduce(f, App1(Cosec, a), Con(2.0))) }

  function DiffCosec(f: Elementary, a: Expr, d: Expr): Expr {
    TimesReduce(NegReduce(d), OverReduce(App1(Cos, a), PowerReduce(f, App1(Sin, a), Con(2.0))))
  }

  function DiffAbs(a: Expr, d: Expr): Expr { AppReduce(Sign, d, a) }

  function DiffArcSin(a: Expr, d: Expr): Expr { OverReduce(d, SqrtReduce(MinusReduce(Con(1.0), SqrReduce(a)))) }

  function DiffArcCos(a: Expr, d: Expr): Expr { OverReduce(NegReduce(d), SqrtReduce(MinusReduce(Con(1.0), SqrReduce(a)))) }

  function DiffArcTan(a: Expr, d: Expr): Expr { OverReduce(d, PlusReduce(Con(1.0), SqrReduce(a))) }

  function DiffArcCot(a: Expr, d: Expr): Expr { OverReduce(NegReduce(d), PlusReduce(Con(1.0), SqrReduce(a))) }

  function DiffArcSec(a: Expr, d: Expr): Expr {
    OverReduce(d, TimesReduce(a, SqrtReduce(MinusReduce(SqrReduce(a), Con(1.0)))))
  }

  function DiffArcCosec(a: Expr, d: Expr): Expr {
    OverReduce(NegReduce(d), TimesReduce(a, SqrtReduce(MinusReduce(SqrReduce(a), Con(1.0)))))
  }

  function DiffSqr(a: Expr, d: Expr): Expr { TimesReduce(TimesReduce(Con(2.0), d), a) }

  function DiffSinh(a: Expr, d: Expr): Expr { AppReduce(Cosh, d, a) }

  function DiffCosh(a: Expr, d: Expr): Expr { AppReduce(Sinh, d, a) }

  function DiffTanh(f: Elementary, a: Expr, d: Expr): Expr { OverReduce(d, PowerReduce(f, App1(Cosh, a), Con(2.0))) }

  function DiffCoth(f: Elementary, a: Expr, d: Expr): Expr { OverReduce(NegReduce(d), PowerReduce(f, App1(Sinh, a), Con(2.0))) }

  function DiffArSinh(a: Expr, d: Expr): Expr { OverReduce(d, SqrtReduce(PlusReduce(SqrReduce(a), Con(1.0)))) }

  function DiffArCosh(a: Expr, d: Expr): Expr { OverReduce(d, SqrtReduce(MinusReduce(SqrReduce(a), Con(1.0)))) }

  function DiffArTanh(a: Expr, d: Expr): Expr { OverReduce(d, MinusReduce(Con(1.0), SqrReduce(a))) }

  function DiffArCoth(a: Expr, d: Expr): Expr { OverReduce(NegReduce(d), MinusReduce(SqrReduce(a), Con(1.0))) }

  function DiffArSech(a: Expr, d: Expr): Expr {
    OverReduce(NegReduce(d), TimesReduce(a, SqrtReduce(MinusReduce(Con(1.0), SqrReduce(a)))))
  }

  function DiffArCosech(a: Expr, d: Expr): Expr {
    OverReduce(NegReduce(d), TimesReduce(a, SqrtReduce(PlusReduce(Con(1.0), SqrReduce(a)))))
  }

  function DiffLimExp(f: Elementary, a: Expr, d: Expr): Expr {
    TimesReduce(d, Ite(App2(Less, a, Con(f.limitexp)), App1(Exp, a), Con(f.exp(f.limitexp))))
  }

  function DiffVt(f: Elementary, a: Expr, d: Expr): Expr { TimesReduce(d, Con(f.kBoverQ)) }

  /** The derivative of op applied to a, whose own derivative is d. */
  function Rule1(f: Elementary, op: Op1, a: Expr, d: Expr): Expr {
    match op
    case Plus1 => d
    case Minus1 => NegReduce(d)
    case Ln => DiffLn(a, d)
    case Log10 => DiffLog10(f, a, d)
    case Log2 => DiffLog2(f, a, d)
    case Sqrt => DiffSqrt(a, d)
    case Exp => DiffExp(a, d)
    case Sinc => DiffSinc(a, d)
    case Norm => DiffNorm(a, d)
    case Sin => DiffSin(a, d)
    case Cos => DiffCos(a, d)
    case Tan => DiffTan(f, a, d)
    case Sec => DiffSec(f, a, d)
    case Cot => DiffCot(f, a, d)
    case Cosec => DiffCosec(f, a, d)
    case AbsOf => DiffAbs(a, d)
    case Step => Con(0.0)
    case Sign => Con(0.0)
    case ArcSin => DiffArcSin(a, d)
    case ArcCos => DiffArcCos(a, d)
    case ArcTan => DiffArcTan(a, d)
    case ArcCot => DiffArcCot(a, d)
    case ArcSec => DiffArcSec(a, d)
    case ArcCosec => DiffArcCosec(a, d)
    case Sqr => DiffSqr(a, d)
    case Sinh => DiffSinh(a, d)
    case Cosh => DiffCosh(a, d)
    case Tanh => DiffTanh(f, a, d)
    case Coth => DiffCoth(f, a, d)
    case ArSinh => DiffArSinh(a, d)
    case ArCosh => DiffArCosh(a, d)
    case ArTanh => DiffArTanh(a, d)
    case ArCoth => DiffArCoth(a, d)
    case ArSech => DiffArSech(a, d)
    case ArCosech => DiffArCosech(a, d)
    case LimExp => DiffLimExp(f, a, d)
    case Vt => DiffVt(f, a, d)
  }

  function PowerRule(f: Elementary, a: Expr, b: Expr, d0: Expr, d1: Expr): Expr {
    if IsConst(a) && IsConst(b) then Con(0.0)
    else if IsZero(d1) then TimesReduce(TimesReduce(b, PowerReduce(f, a, MinusReduce(b, Con(1.0)))), d0)
    else
      TimesReduce(PowerReduce(f, a, b),
                  PlusReduce(TimesReduce(d1, LnReduce(f, a)), OverReduce(TimesReduce(b, d0), a)))
  }

  /** The derivative of op applied to a and b, whose own derivatives are d0 and d1.
      A comparison has no rule and stays as it is. */
  function Rule2(f: Elementary, op: Op2, a: Expr, b: Expr, d0: Expr, d1: Expr): Expr {
    match op
    case Plus => if !IsConst(d0) && !IsConst(d1) then App2(Plus, d0, d1) else PlusReduce(d0, d1)
    case Minus => if !IsConst(d0) && !IsConst(d1) then App2(Minus, d0, d1) else MinusReduce(d0, d1)
    case Times =>
      if IsConst(a) && IsConst(b) then Con(0.0)
      else PlusReduce(TimesReduce(a, d1), TimesReduce(b, d0))
    case Over =>
      if IsConst(a) && IsConst(b) then Con(0.0)
      else OverReduce(MinusReduce(TimesReduce(b, d0), TimesReduce(a, d1)), SqrReduce(b))
    case Power => PowerRule(f, a, b, d0, d1)
    case Hypot => OverReduce(PlusReduce(TimesReduce(d0, a), TimesReduce(d1, b)), HypotReduce(f, a, b))
    case Less => App2(Less, a, b)
  }

  function IteRule(c: Expr, d0: Expr, d1: Expr): Expr {
    if IsConst(d0) && IsConst(d1) && d0.d == d1.d then Con(d0.d) else Ite(c, d0, d1)
  }

  /** The derivative of e with respect to x. */
  function Derivative(f: Elementary, e: Expr, x: string): Expr {
    match e
    case Con(_) => Con(0.0)
    case Ref(n) => Con(if n == x then 1.0 else 0.0)
    case App1(op, a) => Rule1(f, op, a, Derivative(f, a, x))
    case App2(op, a, b) => Rule2(f, op, a, b, Derivative(f, a, x), Derivative(f, b, x))
    case Ite(c, a, b) => IteRule(c, Derivative(f, a, x), Derivative(f, b, x))
  }

  /** What does not contain x differentiates to the literal 0. */
  lemma {:induction false} FreeIsFlat(f: Elementary, e: Expr, x: string)
    requires FreeOf(e, x)
    ensures Derivative(f, e, x) == Con(0.0)
  {
    match e
    case Con(_) =>
    case Ref(_) =>
    case App1(op, a) => FreeIsFlat(f, a, x);
    case App2(op, a, b) =>
      FreeIsFlat(f, a, x);
      FreeIsFlat(f, b, x);
    case Ite(_, a, b) =>
      FreeIsFlat(f, a, x);
      FreeIsFlat(f, b, x);
  }
}
