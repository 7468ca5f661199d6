/** The simplifications made while derivatives are built; each has the value of the
    node it stands for, wherever that has one. */
module Simplify {
  import opened Expressions
  import opened Options

  predicate IsConst(e: Expr) { e.Con? }

  predicate IsZero(e: Expr) { e == Con(0.0) }

  predicate IsOne(e: Expr) { e == Con(1.0) }

  predicate IsNeg(e: Expr) { e == Con(-1.0) }

  predicate IsEuler(f: Elementary, e: Expr) { e == Con(f.euler) || e == Ref("e") }

  function PlusReduce(a: Expr, b: Expr): Expr {
    if IsZero(a) && IsZero(b) then Con(0.0)
    else if IsZero(a) then b
    else if IsZero(b) then a
    else if IsConst(a) && IsConst(b) then Con(a.d + b.d)
    else App2(Plus, a, b)
  }

  function NegReduce(a: Expr): Expr {
    if IsZero(a) then Con(0.0)
    else if IsConst(a) then Con(-a.d)
    else App1(Minus1, a)
  }

  function MinusReduce(a: Expr, b: Expr): Expr {
    if IsZero(a) && IsZero(b) then Con(0.0)
    else if IsZero(a) then NegReduce(b)
    else if IsZero(b) then a
    else if IsConst(a) && IsConst(b) then Con(a.d - b.d)
    else App2(Minus, a, b)
  }

  function TimesReduce(a: Expr, b: Expr): Expr {
    if IsZero(a) || IsZero(b) then Con(0.0)
    else if IsOne(a) then b
    else if IsNeg(a) then NegReduce(b)
    else if IsOne(b) then a
    else if IsNeg(b) then NegReduce(a)
    else if IsConst(a) && IsConst(b) then Con(Mul(a.d, b.d))
    else App2(Times, a, b)
  }

  /** A variable over its own square is one over the variable. */
  function OverReduceAdv(a: Expr, b: Expr): (Expr, Expr) {
    if a.Ref? && b.App1? && b.op1 == Sqr && b.a.Ref? && a.n == b.a.n then (Con(1.0), Ref(b.a.n)) else (a, b)
  }

  function OverReduce(a: Expr, b: Expr): Expr {
    if IsOne(a) && IsOne(b) then Con(1.0)
    else if IsZero(a) then Con(0.0)
    else if IsConst(a) && IsConst(b) then (if IsZero(b) then App2(Over, a, b) else Con(Div(a.d, b.d)))
    else if IsOne(b) then a
    else if IsNeg(b) then NegReduce(a)
    else
      var (a, b) := OverReduceAdv(a, b);
      App2(Over, a, b)
  }

  function PowerReduce(f: Elementary, a: Expr, b: Expr): Expr {
    if IsOne(a) then Con(1.0)
    else if IsZero(a) then Con(0.0)
    else if IsConst(a) && IsConst(b) then (if IsZero(b) then Con(1.0) else Con(f.pow(a.d, b.d)))
    else if IsOne(b) then a
    else App2(Power, a, b)
  }

  function LnReduce(f: Elementary, a: Expr): Expr {
    if IsOne(a) then Con(0.0)
    else if IsEuler(f, a) then Con(1.0)
    else App1(Ln, a)
  }

  function SqrtReduce(a: Expr): Expr {
    if IsOne(a) then Con(1.0)
    else if IsZero(a) then Con(0.0)
    else App1(Sqrt, a)
  }

  function SqrReduce(a: Expr): Expr {
    if IsOne(a) then Con(1.0)
    else if IsZero(a) then Con(0.0)
    else if IsConst(a) then Con(Mul(a.d, a.d))
    else App1(Sqr, a)
  }

  /** The factor d times a function of a. */
  function AppReduce(op: Op1, d: Expr, a: Expr): Expr {
    if IsOne(d) then App1(op, a)
    else if IsZero(d) then Con(0.0)
    else TimesReduce(d, App1(op, a))
  }

  function HypotReduce(f: Elementary, a: Expr, b: Expr): Expr {
    if IsZero(a) && IsZero(b) then Con(0.0)
    else if IsZero(a) then SqrtReduce(SqrReduce(b))
    else if IsZero(b) then SqrtReduce(SqrReduce(a))
    else if IsConst(a) && IsConst(b) then Con(f.sqrt(Mul(a.d, a.d) + Mul(b.d, b.d)))
    else App2(Hypot, a, b)
  }

  // -------------------------------------------------- what the nodes are worth

  ghost predicate Is(f: Elementary, env: Env, e: Expr, w: real) {
    Eval(f, env, e) == Some(w)
  }

  /** Wherever a has a value, b has the same one. */
  ghost predicate Refines(f: Elementary, env: Env, b: Expr, a: Expr) {
    Eval(f, env, a).Some? ==> Eval(f, env, b) == Eval(f, env, a)
  }

  lemma EvalApp1(f: Elementary, env: Env, op: Op1, a: Expr, x: real)
    requires Is(f, env, a, x)
    ensures Eval(f, env, App1(op, a)) == Value1(f, op, x)
  {
  }

  lemma EvalApp2(f: Elementary, env: Env, op: Op2, a: Expr, b: Expr, x: real, y: real)
    requires Is(f, env, a, x) && Is(f, env, b, y)
    ensures Eval(f, env, App2(op, a, b)) == Value2(f, op, x, y)
  {
  }

  lemma PlusIs(f: Elementary, env: Env, a: Expr, b: Expr, x: real, y: real)
    requires Is(f, env, a, x) && Is(f, env, b, y)
    ensures Is(f, env, PlusReduce(a, b), x + y)
  {
    EvalApp2(f, env, Plus, a, b, x, y);
  }

  lemma NegIs(f: Elementary, env: Env, a: Expr, x: real)
    requires Is(f, env, a, x)
    ensures Is(f, env, NegReduce(a), -x)
  {
    EvalApp1(f, env, Minus1, a, x);
  }

  lemma MinusIs(f: Elementary, env: Env, a: Expr, b: Expr, x: real, y: real)
    requires Is(f, env, a, x) && Is(f, env, b, y)
    ensures Is(f, env, MinusReduce(a, b), x - y)
  {
    NegIs(f, env, b, y);
    EvalApp2(f, env, Minus, a, b, x, y);
  }

  lemma TimesIs(f: Elementary, env: Env, a: Expr, b: Expr, x: real, y: real)
    requires Is(f, env, a, x) && Is(f, env, b, y)
    ensures Is(f, env, TimesReduce(a, b), Mul(x, y))
  {
    NegIs(f, env, a, x);
    NegIs(f, env, b, y);
    EvalApp2(f, env, Times, a, b, x, y);
    MulUnits(x, y);
  }

  lemma MulUnits(x: real, y: real)
    ensures x == 0.0 || y == 0.0 ==> Mul(x, y) == 0.0
    ensures x == 1.0 ==> Mul(x, y) == y
    ensures y == 1.0 ==> Mul(x, y) == x
    ensures x == -1.0 ==> Mul(x, y) == -y
    ensures y == -1.0 ==> Mul(x, y) == -x
  {
  }

  lemma CancelSquare(x: real)
    requires x != 0.0
    ensures Mul(x, x) != 0.0 && Div(x, Mul(x, x)) == Div(1.0, x)
  {
    assert x * (1.0 / x) == 1.0;
  }

  lemma DivUnits(x: real, y: real)
    requires y != 0.0
    ensures y == 1.0 ==> Div(x, y) == x
    ensures y == -1.0 ==> Div(x, y) == -x
    ensures x == 0.0 ==> Div(x, y) == 0.0
  {
  }

  lemma OverIs(f: Elementary, env: Env, a: Expr, b: Expr, x: real, y: real)
    requires Is(f, env, a, x) && Is(f, env, b, y) && y != 0.0
    ensures Is(f, env, OverReduce(a, b), Div(x, y))
  {
    NegIs(f, env, a, x);
    EvalApp2(f, env, Over, a, b, x, y);
    DivUnits(x, y);
    if OverReduceAdv(a, b) != (a, b) {
      assert y == Mul(x, x) && x != 0.0;
      CancelSquare(x);
      EvalApp2(f, env, Over, Con(1.0), a, 1.0, x);
    }
  }

  // ----------------------------------------------------------------- powers

  lemma Idempotent(x: real)
    requires Mul(x, x) == x && x > 0.0
    ensures x == 1.0
  {
    assert (x - 1.0) * x == 0.0;
  }

  lemma ExpSumAt(f: Elementary, x: real, y: real)
    requires Lawful(f)
    ensures f.exp(x + y) == Mul(f.exp(x), f.exp(y)) && f.exp(x) > 0.0
  {
    assert ExpSum(f, x, y) && LawsAt(f, x);
  }

  lemma ExpOfZero(f: Elementary)
    requires Lawful(f)
    ensures f.exp(0.0) == 1.0
  {
    ExpSumAt(f, 0.0, 0.0);
    Idempotent(f.exp(0.0));
  }

  lemma PowOfOne(f: Elementary, y: real)
    requires Lawful(f)
    ensures PowValue(f, 1.0, y) == Some(1.0)
  {
    ExpOfZero(f);
  }

  lemma PowOfExponentZero(f: Elementary, x: real)
    requires Lawful(f)
    ensures PowValue(f, x, 0.0) == Some(1.0)
  {
    ExpOfZero(f);
  }

  lemma PowOfExponentOne(f: Elementary, x: real)
    requires Lawful(f)
    ensures PowValue(f, x, 1.0) == Some(x)
  {
    assert LawsAt(f, x);
    assert PowNat(x, 1) == Mul(x, PowNat(x, 0));
  }

  lemma {:induction false} PowNatOfZero(n: nat)
    ensures PowNat(0.0, n) == if n == 0 then 1.0 else 0.0
  {
  }

  lemma PowOfZero(f: Elementary, y: real)
    requires PowValue(f, 0.0, y).Some?
    ensures PowValue(f, 0.0, y) == Some(if y == 0.0 then 1.0 else 0.0)
  {
    if IsInteger(y) && y >= 0.0 { PowNatOfZero(y.Floor); }
  }

  lemma PowerIs(f: Elementary, env: Env, a: Expr, b: Expr, x: real, y: real)
    requires Lawful(f) && Is(f, env, a, x) && Is(f, env, b, y) && PowValue(f, x, y).Some?
    requires !(IsZero(a) && y == 0.0)
    ensures Is(f, env, PowerReduce(f, a, b), PowValue(f, x, y).value)
  {
    EvalApp2(f, env, Power, a, b, x, y);
    PowOfOne(f, y);
    PowOfExponentZero(f, x);
    PowOfExponentOne(f, x);
    assert PowAt(f, x, y);
    if IsZero(a) { PowOfZero(f, y); }
  }

  // ------------------------------------------------------ the other functions

  lemma LnIs(f: Elementary, env: Env, a: Expr, x: real)
    requires Lawful(f) && env("e") == f.euler && Is(f, env, a, x) && x > 0.0
    ensures Is(f, env, LnReduce(f, a), f.ln(x))
  {
    EvalApp1(f, env, Ln, a, x);
  }

  lemma SameRoot(x: real, y: real)
    requires x >= 0.0 && y >= 0.0 && Mul(x, x) == Mul(y, y)
    ensures x == y
  {
    if x < y {
      Larger(x, y);
    } else if y < x {
      Larger(y, x);
    }
  }

  lemma Larger(x: real, y: real)
    requires 0.0 <= x < y
    ensures Mul(x, x) < Mul(y, y)
  {
    var d := y - x;
    assert y * y - x * x == d * d + 2.0 * (x * d);
    Positive(d, d);
    assert x * d >= 0.0;
  }

  lemma Positive(x: real, y: real)
    requires x > 0.0 && y > 0.0
    ensures x * y > 0.0 && Mul(x, y) > 0.0
  {
  }

  lemma SqrtOfSquare(f: Elementary, x: real)
    requires Lawful(f) && x >= 0.0
    ensures f.sqrt(Mul(x, x)) == x
  {
    assert Mul(x, x) >= 0.0 && LawsAt(f, Mul(x, x));
    SameRoot(f.sqrt(Mul(x, x)), x);
  }

  lemma SqrtIs(f: Elementary, env: Env, a: Expr, x: real)
    requires Lawful(f) && Is(f, env, a, x) && x >= 0.0
    ensures Is(f, env, SqrtReduce(a), f.sqrt(x))
  {
    EvalApp1(f, env, Sqrt, a, x);
    SqrtOfSquare(f, 0.0);
    SqrtOfSquare(f, 1.0);
  }

  lemma SqrIs(f: Elementary, env: Env, a: Expr, x: real)
    requires Is(f, env, a, x)
    ensures Is(f, env, SqrReduce(a), Mul(x, x))
  {
    EvalApp1(f, env, Sqr, a, x);
  }

  lemma AppIs(f: Elementary, env: Env, op: Op1, d: Expr, a: Expr, s: real, x: real)
    requires Is(f, env, d, s) && Is(f, env, a, x) && Value1(f, op, x).Some?
    ensures Is(f, env, AppReduce(op, d, a), Mul(s, Value1(f, op, x).value))
  {
    EvalApp1(f, env, op, a, x);
    TimesIs(f, env, d, App1(op, a), s, Value1(f, op, x).value);
  }

  lemma HypotIs(f: Elementary, env: Env, a: Expr, b: Expr, x: real, y: real)
    requires Lawful(f) && Is(f, env, a, x) && Is(f, env, b, y)
    ensures Is(f, env, HypotReduce(f, a, b), f.sqrt(Mul(x, x) + Mul(y, y)))
  {
    hide Value1, Lawful;
    assert Mul(x, x) >= 0.0 && Mul(y, y) >= 0.0;
    EvalApp2(f, env, Hypot, a, b, x, y);
    SqrIs(f, env, a, x);
    SqrIs(f, env, b, y);
    SqrtIs(f, env, SqrReduce(a), Mul(x, x));
    SqrtIs(f, env, SqrReduce(b), Mul(y, y));
    SqrtOfSquare(f, 0.0);
  }

  // ------------------------------------------------------------- refinement

  lemma PlusRefines(f: Elementary, env: Env, a: Expr, b: Expr)
    ensures Refines(f, env, PlusReduce(a, b), App2(Plus, a, b))
  {
    var x, y := Eval(f, env, a), Eval(f, env, b);
    if x.Some? && y.Some? { PlusIs(f, env, a, b, x.value, y.value); }
  }

  lemma MinusRefines(f: Elementary, env: Env, a: Expr, b: Expr)
    ensures Refines(f, env, MinusReduce(a, b), App2(Minus, a, b))
  {
    var x, y := Eval(f, env, a), Eval(f, env, b);
    if x.Some? && y.Some? { MinusIs(f, env, a, b, x.value, y.value); }
  }

  lemma TimesRefines(f: Elementary, env: Env, a: Expr, b: Expr)
    ensures Refines(f, env, TimesReduce(a, b), App2(Times, a, b))
  {
    var x, y := Eval(f, env, a), Eval(f, env, b);
    if x.Some? && y.Some? { TimesIs(f, env, a, b, x.value, y.value); }
  }

  lemma OverRefines(f: Elementary, env: Env, a: Expr, b: Expr)
    ensures Refines(f, env, OverReduce(a, b), App2(Over, a, b))
  {
    var x, y := Eval(f, env, a), Eval(f, env, b);
    if x.Some? && y.Some? && y.value != 0.0 { OverIs(f, env, a, b, x.value, y.value); }
  }

  lemma HypotRefines(f: Elementary, env: Env, a: Expr, b: Expr)
    requires Lawful(f)
    ensures Refines(f, env, HypotReduce(f, a, b), App2(Hypot, a, b))
  {
    var x, y := Eval(f, env, a), Eval(f, env, b);
    if x.Some? && y.Some? {
      EvalApp2(f, env, Hypot, a, b, x.value, y.value);
      hide Value1, HypotReduce, Lawful;
      HypotIs(f, env, a, b, x.value, y.value);
    }
  }

  lemma NegRefines(f: Elementary, env: Env, a: Expr)
    ensures Refines(f, env, NegReduce(a), App1(Minus1, a))
  {
    var x := Eval(f, env, a);
    if x.Some? { NegIs(f, env, a, x.value); }
  }

  lemma LnRefines(f: Elementary, env: Env, a: Expr)
    requires Lawful(f) && env("e") == f.euler
    ensures Refines(f, env, LnReduce(f, a), App1(Ln, a))
  {
    var x := Eval(f, env, a);
    if x.Some? && x.value > 0.0 { LnIs(f, env, a, x.value); }
  }

  lemma SqrtRefines(f: Elementary, env: Env, a: Expr)
    requires Lawful(f)
    ensures Refines(f, env, SqrtReduce(a), App1(Sqrt, a))
  {
    var x := Eval(f, env, a);
    if x.Some? && x.value >= 0.0 { SqrtIs(f, env, a, x.value); }
  }

  lemma SqrRefines(f: Elementary, env: Env, a: Expr)
    ensures Refines(f, env, SqrReduce(a), App1(Sqr, a))
  {
    var x := Eval(f, env, a);
    if x.Some? { SqrIs(f, env, a, x.value); }
  }

  /** A power keeps its value except in one case: the literal base 0 is folded to
      0 even when the exponent is 0. */
  lemma PowerRefinesIff(f: Elementary, env: Env, a: Expr, b: Expr)
    requires Lawful(f)
    ensures Refines(f, env, PowerReduce(f, a, b), App2(Power, a, b)) <==> !(IsZero(a) && Is(f, env, b, 0.0))
  {
    var x, y := Eval(f, env, a), Eval(f, env, b);
    if x.Some? && y.Some? {
      PowOfExponentZero(f, x.value);
      if PowValue(f, x.value, y.value).Some? && !(IsZero(a) && y.value == 0.0) { PowerIs(f, env, a, b, x.value, y.value); }
    }
  }
}
