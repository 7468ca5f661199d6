/** Expressions of the equation language and their real values. */
module Expressions {
  import opened Options

  /** The one-argument functions that can be differentiated. */
  datatype Op1 =
    | Plus1 | Minus1 | Ln | Log10 | Log2 | Sqrt | Exp | Sinc | Norm | Sin | Cos | Tan | Sec | Cot | Cosec
    | AbsOf | Step | Sign | ArcSin | ArcCos | ArcTan | ArcCot | ArcSec | ArcCosec | Sqr | Sinh | Cosh | Tanh | Coth
    | ArSinh | ArCosh | ArTanh | ArCoth | ArSech | ArCosech | LimExp | Vt

  /** The two-argument functions; a comparison is 1 or 0. */
  datatype Op2 = Plus | Minus | Times | Over | Power | Hypot | Less

  datatype Expr =
    | Con(d: real)
    | Ref(n: string)
    | App1(op1: Op1, a: Expr)
    | App2(op2: Op2, f0: Expr, f1: Expr)
    | Ite(c: Expr, yes: Expr, no: Expr)

  /** The elementary functions and constants of the mathematical library. */
  datatype Elementary = Elementary(
    sin: real -> real, cos: real -> real, exp: real -> real, ln: real -> real, sqrt: real -> real,
    asin: real -> real, acos: real -> real, atan: real -> real, pow: (real, real) -> real,
    pi: real, euler: real, log2e: real, limitexp: real, kBoverQ: real)

  /** What is assumed of the elementary functions at x. */
  ghost predicate LawsAt(f: Elementary, x: real) {
    && Mul(f.sin(x), f.sin(x)) + Mul(f.cos(x), f.cos(x)) == 1.0
    && f.exp(x) > 0.0
    && (x > 0.0 ==> f.exp(f.ln(x)) == x)
    && (x >= 0.0 ==> f.sqrt(x) >= 0.0 && Mul(f.sqrt(x), f.sqrt(x)) == x)
    && (-1.0 <= x <= 1.0 ==> f.sin(f.asin(x)) == x && f.cos(f.asin(x)) >= 0.0)
    && (-1.0 <= x <= 1.0 ==> f.cos(f.acos(x)) == x && f.sin(f.acos(x)) >= 0.0)
    && f.cos(f.atan(x)) > 0.0 && f.sin(f.atan(x)) == Mul(x, f.cos(f.atan(x)))
  }

  ghost predicate ExpSum(f: Elementary, x: real, y: real) {
    f.exp(x + y) == Mul(f.exp(x), f.exp(y))
  }

  ghost predicate PowAt(f: Elementary, x: real, y: real) {
    PowValue(f, x, y).Some? ==> f.pow(x, y) == PowValue(f, x, y).value
  }

  ghost predicate Lawful(f: Elementary) {
    && (forall x :: LawsAt(f, x))
    && (forall x, y :: ExpSum(f, x, y))
    && (forall x, y :: PowAt(f, x, y))
    && f.ln(1.0) == 0.0 && f.ln(f.euler) == 1.0 && f.ln(10.0) != 0.0 && Mul(f.log2e, f.ln(2.0)) == 1.0
  }

  // ----------------------------------------------------------------- powers

  function PowNat(x: real, n: nat): real {
    if n == 0 then 1.0 else Mul(x, PowNat(x, n - 1))
  }

  predicate IsInteger(y: real) {
    y.Floor as real == y
  }

  /** The real power: through the logarithm for a positive base, by repeated
      multiplication for an integer exponent. */
  function PowValue(f: Elementary, x: real, y: real): Option<real> {
    if x > 0.0 then Some(f.exp(Mul(y, f.ln(x))))
    else if IsInteger(y) && y >= 0.0 then Some(PowNat(x, y.Floor))
    else if x == 0.0 then (if y > 0.0 then Some(0.0) else None)
    else if IsInteger(y) then
      var p := PowNat(x, (-y).Floor);
      if p == 0.0 then None else Some(Div(1.0, p))
    else None
  }

  // ------------------------------------------------------------- evaluation

  function Mul(x: real, y: real): real { x * y }

  function Div(x: real, y: real): real
    requires y != 0.0
  {
    x / y
  }

  function Quotient(x: real, y: real): Option<real> {
    if y == 0.0 then None else Some(Div(x, y))
  }

  function LnValue(f: Elementary, x: real): Option<real> {
    if x > 0.0 then Some(f.ln(x)) else None
  }

  function SqrtValue(f: Elementary, x: real): Option<real> {
    if x >= 0.0 then Some(f.sqrt(x)) else None
  }

  function SinhValue(f: Elementary, x: real): real { Mul(0.5, f.exp(x) - f.exp(-x)) }

  function CoshValue(f: Elementary, x: real): real { Mul(0.5, f.exp(x) + f.exp(-x)) }

  function AsinValue(f: Elementary, x: real): Option<real> {
    if -1.0 <= x <= 1.0 then Some(f.asin(x)) else None
  }

  function AcosValue(f: Elementary, x: real): Option<real> {
    if -1.0 <= x <= 1.0 then Some(f.acos(x)) else None
  }

  function ArSinhValue(f: Elementary, x: real): Option<real> {
    var s :- SqrtValue(f, Mul(x, x) + 1.0);
    LnValue(f, x + s)
  }

  function ArCoshValue(f: Elementary, x: real): Option<real> {
    if x < 1.0 then None
    else
      var s :- SqrtValue(f, Mul(x, x) - 1.0);
      LnValue(f, x + s)
  }

  function HalfLnQuotient(f: Elementary, x: real, y: real): Option<real> {
    var q :- Quotient(x, y);
    var l :- LnValue(f, q);
    Some(Mul(0.5, l))
  }

  function Log10Value(f: Elementary, x: real): Option<real> {
    var l :- LnValue(f, x);
    Quotient(l, f.ln(10.0))
  }

  function Log2Value(f: Elementary, x: real): Option<real> {
    var l :- LnValue(f, x);
    Some(Mul(l, f.log2e))
  }

  function CotValue(f: Elementary, x: real): Option<real> {
    var t :- Quotient(f.sin(x), f.cos(x));
    Quotient(1.0, t)
  }

  function ArcSecValue(f: Elementary, x: real): Option<real> {
    var r :- Quotient(1.0, x);
    AcosValue(f, r)
  }

  function ArcCosecValue(f: Elementary, x: real): Option<real> {
    var r :- Quotient(1.0, x);
    AsinValue(f, r)
  }

  function CothValue(f: Elementary, x: real): Option<real> {
    var t :- Quotient(SinhValue(f, x), CoshValue(f, x));
    Quotient(1.0, t)
  }

  function ArSechValue(f: Elementary, x: real): Option<real> {
    var r :- Quotient(1.0, x);
    ArCoshValue(f, r)
  }

  function ArCosechValue(f: Elementary, x: real): Option<real> {
    var r :- Quotient(1.0, x);
    ArSinhValue(f, r)
  }

  function Value1(f: Elementary, op: Op1, x: real): Option<real> {
    match op
    case Plus1 => Some(x)
    case Minus1 => Some(-x)
    case Ln => LnValue(f, x)
    case Log10 => Log10Value(f, x)
    case Log2 => Log2Value(f, x)
    case Sqrt => SqrtValue(f, x)
    case Exp => Some(f.exp(x))
    case Sinc => if x == 0.0 then Some(1.0) else Some(Div(f.sin(x), x))
    case Norm => Some(Mul(x, x))
    case Sin => Some(f.sin(x))
    case Cos => Some(f.cos(x))
    case Tan => Quotient(f.sin(x), f.cos(x))
    case Sec => Quotient(1.0, f.cos(x))
    case Cot => CotValue(f, x)
    case Cosec => Quotient(1.0, f.sin(x))
    case AbsOf => Some(if x < 0.0 then -x else x)
    case Step => Some(if x < 0.0 then 0.0 else if x > 0.0 then 1.0 else 0.5)
    case Sign => Some(if x < 0.0 then -1.0 else 1.0)
    case ArcSin => AsinValue(f, x)
    case ArcCos => AcosValue(f, x)
    case ArcTan => Some(f.atan(x))
    case ArcCot => Some(f.pi / 2.0 - f.atan(x))
    case ArcSec => ArcSecValue(f, x)
    case ArcCosec => ArcCosecValue(f, x)
    case Sqr => Some(Mul(x, x))
    case Sinh => Some(SinhValue(f, x))
    case Cosh => Some(CoshValue(f, x))
    case Tanh => Quotient(SinhValue(f, x), CoshValue(f, x))
    case Coth => CothValue(f, x)
    case ArSinh => ArSinhValue(f, x)
    case ArCosh => ArCoshValue(f, x)
    case ArTanh => HalfLnQuotient(f, 1.0 + x, 1.0 - x)
    case ArCoth => HalfLnQuotient(f, x + 1.0, x - 1.0)
    case ArSech => ArSechValue(f, x)
    case ArCosech => ArCosechValue(f, x)
    case LimExp => Some(if x < f.limitexp then f.exp(x) else Mul(f.exp(f.limitexp), 1.0 + (x - f.limitexp)))
    case Vt => Some(Mul(x, f.kBoverQ))
  }

  function Value2(f: Elementary, op: Op2, x: real, y: real): Option<real> {
    match op
    case Plus => Some(x + y)
    case Minus => Some(x - y)
    case Times => Some(Mul(x, y))
    case Over => Quotient(x, y)
    case Power => PowValue(f, x, y)
    case Hypot => SqrtValue(f, Mul(x, x) + Mul(y, y))
    case Less => Some(if x < y then 1.0 else 0.0)
  }

  type Env = string -> real

  /** The value of an expression, where it has a real one. */
  function Eval(f: Elementary, env: Env, e: Expr): Option<real> {
    match e
    case Con(d) => Some(d)
    case Ref(n) => Some(env(n))
    case App1(op, a) => (var x :- Eval(f, env, a); Value1(f, op, x))
    case App2(op, a, b) => (var x :- Eval(f, env, a); var y :- Eval(f, env, b); Value2(f, op, x, y))
    case Ite(c, a, b) => (var x :- Eval(f, env, c); if x != 0.0 then Eval(f, env, a) else Eval(f, env, b))
  }

  /** The functions that are defined piece by piece, at every point. */
  lemma PieceByPiece(f: Elementary, x: real)
    ensures Value1(f, Step, x) == Some(if x < 0.0 then 0.0 else if x == 0.0 then 0.5 else 1.0)
    ensures Value1(f, Sign, x) == Some(if x >= 0.0 then 1.0 else -1.0)
    ensures Value1(f, AbsOf, x) == Some(if x >= 0.0 then x else -x)
    ensures x < f.limitexp ==> Value1(f, LimExp, x) == Some(f.exp(x))
    ensures x >= f.limitexp ==> exists z :: Value1(f, LimExp, x) == Some(z) && z == f.exp(f.limitexp) * (1.0 + (x - f.limitexp))
  {
    var d := 1.0 + (x - f.limitexp);
    MulIs(f.exp(f.limitexp), d);
    hide Mul;
  }

  lemma MulIs(x: real, y: real)
    ensures Mul(x, y) == x * y
  {
  }

  lemma TimesQuotient(x: real, y: real)
    requires y != 0.0
    ensures Div(x, y) * y == x
  {
  }

  /** A quotient, and the sine over its argument. */
  lemma QuotientValues(f: Elementary, x: real, y: real)
    ensures if y == 0.0 then Value2(f, Over, x, y) == None else Value2(f, Over, x, y).Some? && Value2(f, Over, x, y).value * y == x
    ensures Value1(f, Sinc, x).Some? && if x == 0.0 then Value1(f, Sinc, x).value == 1.0 else Value1(f, Sinc, x).value * x == f.sin(x)
  {
    if y != 0.0 { TimesQuotient(x, y); }
    if x != 0.0 { TimesQuotient(f.sin(x), x); }
    hide Div;
  }

  lemma QuotientIs(x: real, y: real)
    ensures if y == 0.0 then Quotient(x, y) == None else Quotient(x, y).Some? && Quotient(x, y).value * y == x
  {
    if y != 0.0 { TimesQuotient(x, y); }
  }

  /** The circular functions by sine and cosine. */
  lemma CircularValues(f: Elementary, x: real)
    ensures Value1(f, Tan, x) == Quotient(f.sin(x), f.cos(x))
    ensures Value1(f, Sec, x) == Quotient(1.0, f.cos(x)) && Value1(f, Cosec, x) == Quotient(1.0, f.sin(x))
    ensures Value1(f, Cot, x) == if f.cos(x) == 0.0 then None else Quotient(1.0, Div(f.sin(x), f.cos(x)))
  {
    hide Div;
  }

  /** Their inverses by those of sine, cosine and tangent. */
  lemma ArcValues(f: Elementary, x: real)
    ensures Value1(f, ArcCot, x) == Some(f.pi / 2.0 - f.atan(x))
    ensures Value1(f, ArcSin, x) == (if -1.0 <= x <= 1.0 then Some(f.asin(x)) else None) == AsinValue(f, x)
    ensures Value1(f, ArcCos, x) == (if -1.0 <= x <= 1.0 then Some(f.acos(x)) else None) == AcosValue(f, x)
    ensures x != 0.0 ==> Value1(f, ArcSec, x) == AcosValue(f, Div(1.0, x)) && Value1(f, ArcCosec, x) == AsinValue(f, Div(1.0, x))
  {
    hide Div;
  }

  /** The hyperbolic functions by the exponential function. */
  lemma HyperbolicValues(f: Elementary, x: real)
    ensures Value1(f, Sinh, x) == Some(Mul(0.5, f.exp(x) - f.exp(-x))) && Value1(f, Cosh, x) == Some(Mul(0.5, f.exp(x) + f.exp(-x)))
    ensures Value1(f, Tanh, x) == Quotient(SinhValue(f, x), CoshValue(f, x))
    ensures CoshValue(f, x) != 0.0 ==> Value1(f, Coth, x) == Quotient(1.0, Div(SinhValue(f, x), CoshValue(f, x)))
    ensures Value1(f, Sinh, x) == Some(SinhValue(f, x)) && Value1(f, Cosh, x) == Some(CoshValue(f, x))
  {
    hide Div, Mul;
  }

  /** The other functions by logarithm and root. */
  lemma LogarithmValues(f: Elementary, x: real)
    ensures Value1(f, Ln, x) == if x > 0.0 then Some(f.ln(x)) else None
    ensures Value1(f, Sqrt, x) == if x >= 0.0 then Some(f.sqrt(x)) else None
    ensures Value1(f, Log10, x) == if x > 0.0 then Quotient(f.ln(x), f.ln(10.0)) else None
    ensures Value1(f, Log2, x) == if x > 0.0 then Some(Mul(f.ln(x), f.log2e)) else None
    ensures Value1(f, Norm, x) == Value1(f, Sqr, x) == Some(Mul(x, x)) && Value1(f, Vt, x) == Some(Mul(x, f.kBoverQ))
  {
    hide Div, Mul;
  }

  /** The area functions by the logarithm. */
  lemma AreaValues(f: Elementary, x: real)
    ensures Value1(f, ArSinh, x).Some? ==> Value1(f, ArSinh, x).value == f.ln(x + f.sqrt(Mul(x, x) + 1.0))
    ensures Value1(f, ArCosh, x).Some? ==> x >= 1.0 && Value1(f, ArCosh, x).value == f.ln(x + f.sqrt(Mul(x, x) - 1.0))
    ensures Value1(f, ArTanh, x).Some? ==> x != 1.0 && Value1(f, ArTanh, x).value == Mul(0.5, f.ln(Div(1.0 + x, 1.0 - x)))
    ensures Value1(f, ArCoth, x).Some? ==> x != 1.0 && Value1(f, ArCoth, x).value == Mul(0.5, f.ln(Div(x + 1.0, x - 1.0)))
  {
    hide Div, Mul;
  }

  lemma ReciprocalAreaValues(f: Elementary, x: real)
    ensures x != 0.0 ==> Value1(f, ArSech, x) == ArCoshValue(f, Div(1.0, x)) && Value1(f, ArCosech, x) == ArSinhValue(f, Div(1.0, x))
    ensures Value1(f, ArCosh, x) == ArCoshValue(f, x) && Value1(f, ArSinh, x) == ArSinhValue(f, x)
  {
    hide Div, Mul, ArCoshValue, ArSinhValue;
  }
}
