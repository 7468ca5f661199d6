/** Forward-mode derivatives: every expression carries its value and its rate of
    change, computed from the definitions of the functions. */
module DualNumbers {
  import opened Expressions
  import opened Options

  datatype Dual = Dual(v: real, d: real)

  function Fixed(x: real): Dual { Dual(x, 0.0) }

  function DAdd(x: Dual, y: Dual): Dual { Dual(x.v + y.v, x.d + y.d) }

  function DSub(x: Dual, y: Dual): Dual { Dual(x.v - y.v, x.d - y.d) }

  function DMul(x: Dual, y: Dual): Dual { Dual(Mul(x.v, y.v), Mul(x.v, y.d) + Mul(x.d, y.v)) }

  function DDiv(x: Dual, y: Dual): Option<Dual> {
    if y.v == 0.0 then None
    else
      var q := Div(x.v, y.v);
      Some(Dual(q, Div(x.d - Mul(q, y.d), y.v)))
  }

  function DExp(f: Elementary, x: Dual): Dual { Dual(f.exp(x.v), Mul(f.exp(x.v), x.d)) }

  function DSin(f: Elementary, x: Dual): Dual { Dual(f.sin(x.v), Mul(f.cos(x.v), x.d)) }

  function DCos(f: Elementary, x: Dual): Dual { Dual(f.cos(x.v), -Mul(f.sin(x.v), x.d)) }

  function DTan(f: Elementary, x: Dual): Option<Dual> { DDiv(DSin(f, x), DCos(f, x)) }

  function DSinh(f: Elementary, x: Dual): Dual {
    DMul(Fixed(0.5), DSub(DExp(f, x), DExp(f, Dual(-x.v, -x.d))))
  }

  function DCosh(f: Elementary, x: Dual): Dual {
    DMul(Fixed(0.5), DAdd(DExp(f, x), DExp(f, Dual(-x.v, -x.d))))
  }

  /** The inverse function rule: y is where a function with the given slope takes
      the value x. */
  function Inverse(y: real, slope: real, x: Dual): Option<Dual> {
    if slope == 0.0 then None else Some(Dual(y, Div(x.d, slope)))
  }

  function DLn(f: Elementary, x: Dual): Option<Dual> {
    if x.v <= 0.0 then None else Inverse(f.ln(x.v), DExp(f, Dual(f.ln(x.v), 1.0)).d, x)
  }

  function DSqrt(f: Elementary, x: Dual): Option<Dual> {
    if x.v < 0.0 then None
    else
      var y := Dual(f.sqrt(x.v), 1.0);
      Inverse(y.v, DMul(y, y).d, x)
  }

  function DAsin(f: Elementary, x: Dual): Option<Dual> {
    if x.v < -1.0 || x.v > 1.0 then None else Inverse(f.asin(x.v), DSin(f, Dual(f.asin(x.v), 1.0)).d, x)
  }

  function DAcos(f: Elementary, x: Dual): Option<Dual> {
    if x.v < -1.0 || x.v > 1.0 then None else Inverse(f.acos(x.v), DCos(f, Dual(f.acos(x.v), 1.0)).d, x)
  }

  function DAtan(f: Elementary, x: Dual): Option<Dual> {
    var t :- DTan(f, Dual(f.atan(x.v), 1.0));
    Inverse(f.atan(x.v), t.d, x)
  }

  function DArSinh(f: Elementary, x: Dual): Option<Dual> {
    var s :- DSqrt(f, DAdd(DMul(x, x), Fixed(1.0)));
    DLn(f, DAdd(x, s))
  }

  function DArCosh(f: Elementary, x: Dual): Option<Dual> {
    if x.v < 1.0 then None
    else
      var s :- DSqrt(f, DSub(DMul(x, x), Fixed(1.0)));
      DLn(f, DAdd(x, s))
  }

  function DHalfLnQuotient(f: Elementary, x: Dual, y: Dual): Option<Dual> {
    var q :- DDiv(x, y);
    var l :- DLn(f, q);
    Some(DMul(Fixed(0.5), l))
  }

  function DLog10(f: Elementary, x: Dual): Option<Dual> {
    var l :- DLn(f, x);
    DDiv(l, Fixed(f.ln(10.0)))
  }

  function DLog2(f: Elementary, x: Dual): Option<Dual> {
    var l :- DLn(f, x);
    Some(DMul(l, Fixed(f.log2e)))
  }

  function DSinc(f: Elementary, x: Dual): Option<Dual> {
    DDiv(DSin(f, x), x)
  }

  function DSec(f: Elementary, x: Dual): Option<Dual> {
    DDiv(Fixed(1.0), DCos(f, x))
  }

  function DCot(f: Elementary, x: Dual): Option<Dual> {
    var t :- DTan(f, x);
    DDiv(Fixed(1.0), t)
  }

  function DCosec(f: Elementary, x: Dual): Option<Dual> {
    DDiv(Fixed(1.0), DSin(f, x))
  }

  function DAbs(x: Dual): Option<Dual> {
    if x.v == 0.0 then None else Some(if x.v < 0.0 then Dual(-x.v, -x.d) else x)
  }

  function DStep(x: Dual): Option<Dual> {
    if x.v == 0.0 then None else Some(Fixed(if x.v < 0.0 then 0.0 else 1.0))
  }

  function DSign(x: Dual): Option<Dual> {
    if x.v == 0.0 then None else Some(Fixed(if x.v < 0.0 then -1.0 else 1.0))
  }

  function DArcCot(f: Elementary, x: Dual): Option<Dual> {
    var y :- DAtan(f, x);
    Some(DSub(Fixed(f.pi / 2.0), y))
  }

  function DArcSec(f: Elementary, x: Dual): Option<Dual> {
    var r :- DDiv(Fixed(1.0), x);
    DAcos(f, r)
  }

  function DArcCosec(f: Elementary, x: Dual): Option<Dual> {
    var r :- DDiv(Fixed(1.0), x);
    DAsin(f, r)
  }

  function DTanh(f: Elementary, x: Dual): Option<Dual> {
    DDiv(DSinh(f, x), DCosh(f, x))
  }

  function DCoth(f: Elementary, x: Dual): Option<Dual> {
    var t :- DDiv(DSinh(f, x), DCosh(f, x));
    DDiv(Fixed(1.0), t)
  }

  function DArTanh(f: Elementary, x: Dual): Option<Dual> {
    DHalfLnQuotient(f, DAdd(Fixed(1.0), x), DSub(Fixed(1.0), x))
  }

  function DArCoth(f: Elementary, x: Dual): Option<Dual> {
    DHalfLnQuotient(f, DAdd(x, Fixed(1.0)), DSub(x, Fixed(1.0)))
  }

  function DArSech(f: Elementary, x: Dual): Option<Dual> {
    var r :- DDiv(Fixed(1.0), x);
    DArCosh(f, r)
  }

  function DArCosech(f: Elementary, x: Dual): Option<Dual> {
    var r :- DDiv(Fixed(1.0), x);
    DArSinh(f, r)
  }

  function DLimExp(f: Elementary, x: Dual): Dual {
    if x.v < f.limitexp then DExp(f, x)
    else DMul(Fixed(f.exp(f.limitexp)), DAdd(Fixed(1.0), DSub(x, Fixed(f.limitexp))))
  }

  function DVt(f: Elementary, x: Dual): Option<Dual> {
    Some(DMul(x, Fixed(f.kBoverQ)))
  }

  function Forward1(f: Elementary, op: Op1, x: Dual): Option<Dual> {
    match op
    case Plus1 => Some(x)
    case Minus1 => Some(Dual(-x.v, -x.d))
    case Ln => DLn(f, x)
    case Log10 => DLog10(f, x)
    case Log2 => DLog2(f, x)
    case Sqrt => DSqrt(f, x)
    case Exp => Some(DExp(f, x))
    case Sinc => DSinc(f, x)
    case Norm => Some(DMul(x, x))
    case Sin => Some(DSin(f, x))
    case Cos => Some(DCos(f, x))
    case Tan => DTan(f, x)
    case Sec => DSec(f, x)
    case Cot => DCot(f, x)
    case Cosec => DCosec(f, x)
    case AbsOf => DAbs(x)
    case Step => DStep(x)
    case Sign => DSign(x)
    case ArcSin => DAsin(f, x)
    case ArcCos => DAcos(f, x)
    case ArcTan => DAtan(f, x)
    case ArcCot => DArcCot(f, x)
    case ArcSec => DArcSec(f, x)
    case ArcCosec => DArcCosec(f, x)
    case Sqr => Some(DMul(x, x))
    case Sinh => Some(DSinh(f, x))
    case Cosh => Some(DCosh(f, x))
    case Tanh => DTanh(f, x)
    case Coth => DCoth(f, x)
    case ArSinh => DArSinh(f, x)
    case ArCosh => DArCosh(f, x)
    case ArTanh => DArTanh(f, x)
    case ArCoth => DArCoth(f, x)
    case ArSech => DArSech(f, x)
    case ArCosech => DArCosech(f, x)
    case LimExp => Some(DLimExp(f, x))
    case Vt => DVt(f, x)
  }

  // ----------------------------------------------------------------- powers

  function DPowNat(x: Dual, n: nat): Dual {
    if n == 0 then Fixed(1.0) else DMul(x, DPowNat(x, n - 1))
  }

  /** A power with a fixed exponent, by repeated multiplication. */
  function DPowInt(x: Dual, y: real): Option<Dual> {
    if !IsInteger(y) then None
    else if y >= 1.0 || (y == 0.0 && x.v != 0.0) then Some(DPowNat(x, y.Floor))
    else if y < 0.0 && x.v != 0.0 then DDiv(Fixed(1.0), DPowNat(x, (-y).Floor))
    else None
  }

  /** A power with a positive base, through the logarithm. */
  function DPow(f: Elementary, x: Dual, y: Dual): Option<Dual> {
    var l :- DLn(f, x);
    Some(DExp(f, DMul(y, l)))
  }

  function Forward2(f: Elementary, op: Op2, x: Dual, y: Dual): Option<Dual> {
    match op
    case Plus => Some(DAdd(x, y))
    case Minus => Some(DSub(x, y))
    case Times => Some(DMul(x, y))
    case Over => DDiv(x, y)
    case Power => DPow(f, x, y)
    case Hypot => DSqrt(f, DAdd(DMul(x, x), DMul(y, y)))
    case Less => None
  }

  // ------------------------------------------------------------ expressions

  /** The variable x does not occur in e outside of conditions, nor do comparisons. */
  predicate FreeOf(e: Expr, x: string) {
    match e
    case Con(_) => true
    case Ref(n) => n != x
    case App1(_, a) => FreeOf(a, x)
    case App2(op, a, b) => op != Less && FreeOf(a, x) && FreeOf(b, x)
    case Ite(_, a, b) => FreeOf(a, x) && FreeOf(b, x)
  }

  /** The value of e and its derivative with respect to x, where both exist. */
  function Forward(f: Elementary, env: Env, x: string, e: Expr): Option<Dual> {
    match e
    case Con(d) => Some(Fixed(d))
    case Ref(n) => Some(Dual(env(n), if n == x then 1.0 else 0.0))
    case App1(op, a) => (var p :- Forward(f, env, x, a); Forward1(f, op, p))
    case App2(op, a, b) =>
      var p :- Forward(f, env, x, a);
      var q :- Forward(f, env, x, b);
      if op == Power && p.v <= 0.0 then (if FreeOf(b, x) then DPowInt(p, q.v) else None)
      else Forward2(f, op, p, q)
    case Ite(c, a, b) =>
      var t :- Eval(f, env, c);
      if t != 0.0 then Forward(f, env, x, a) else Forward(f, env, x, b)
  }
}
