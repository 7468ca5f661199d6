/** What the derivative of a polynomial expression says about its values nearby. */
module Taylor {
  import opened Arithmetic
  import opened DerivativeSound
  import opened Differentiate
  import opened DualNumbers
  import opened Expressions
  import opened Options
  import opened Simplify

  /** Built from sums, differences, products and squares. */
  predicate Polynomial(e: Expr) {
    match e
    case Con(_) => true
    case Ref(_) => true
    case App1(op, a) => (op == Plus1 || op == Minus1 || op == Sqr) && Polynomial(a)
    case App2(op, a, b) => (op == Plus || op == Minus || op == Times) && Polynomial(a) && Polynomial(b)
    case Ite(_, _, _) => false
  }

  function Moved(env: Env, x: string, h: real): Env {
    n => if n == x then env(n) + h else env(n)
  }

  lemma {:induction false} PolynomialsDiffer(f: Elementary, env: Env, x: string, e: Expr)
    requires Polynomial(e)
    ensures Forward(f, env, x, e).Some? && Regular(f, env, x, e)
  {
    match e
    case Con(_) =>
    case Ref(_) =>
    case App1(_, a) => PolynomialsDiffer(f, env, x, a);
    case App2(_, a, b) =>
      PolynomialsDiffer(f, env, x, a);
      PolynomialsDiffer(f, env, x, b);
  }

  /** The value and slope of a polynomial expression. */
  function At(f: Elementary, env: Env, x: string, e: Expr): Dual
    requires Polynomial(e)
  {
    PolynomialsDiffer(f, env, x, e);
    Forward(f, env, x, e).value
  }

  function ProductRest(p: Dual, q: Dual, r: real, s: real, h: real): real {
    Level(p, q, r, s) + Mul(h, Slant(p, q, r, s)) + Mul(Mul(h, h), Mul(r, s))
  }

  function Level(p: Dual, q: Dual, r: real, s: real): real { Mul(p.d, q.d) + Mul(p.v, s) + Mul(q.v, r) }

  function Slant(p: Dual, q: Dual, r: real, s: real): real { Mul(p.d, s) + Mul(q.d, r) }

  function Rest1(op: Op1, p: Dual, r: real, h: real): real {
    if op == Plus1 then r else if op == Minus1 then -r else ProductRest(p, p, r, r, h)
  }

  function Rest2(op: Op2, p: Dual, q: Dual, r: real, s: real, h: real): real {
    if op == Plus then r + s else if op == Minus then r - s else ProductRest(p, q, r, s, h)
  }

  /** What is left of the change by h after the linear part, over h^2. */
  function Rest(f: Elementary, env: Env, x: string, e: Expr, h: real): real
    requires Polynomial(e)
  {
    match e
    case Con(_) => 0.0
    case Ref(_) => 0.0
    case App1(op, a) =>
      Rest1(op, At(f, env, x, a), Rest(f, env, x, a, h), h)
    case App2(op, a, b) =>
      Rest2(op, At(f, env, x, a), At(f, env, x, b), Rest(f, env, x, a, h), Rest(f, env, x, b, h), h)
  }

  /** p moved by h, with rest r. */
  function Line(p: Dual, r: real, h: real): real { p.v + Mul(h, p.d) + Mul(Mul(h, h), r) }

  lemma ProductOfLines(p: Dual, q: Dual, r: real, s: real, h: real)
    ensures Mul(Line(p, r, h), Line(q, s, h)) == Line(DMul(p, q), ProductRest(p, q, r, s, h), h)
  {
    LinesMultiply(p.v, p.d, r, q.v, q.d, s, h);
  }

  /** The product of two expansions, by powers of h. */
  lemma LinesMultiply(a: real, b: real, r: real, c: real, d: real, s: real, h: real)
    ensures (a + h * b + h * h * r) * (c + h * d + h * h * s) ==
            a * c + h * (a * d + c * b) + h * h * (b * d + a * s + c * r + h * (b * s + d * r) + h * h * (r * s))
  {
    var k := h * h;
    NineTerms(a, h * b, k * r, c, h * d, k * s);
    FiveTerms(k, b * d, a * s, c * r, h * (b * s + d * r), k * (r * s));
  }

  lemma NineTerms(a: real, b: real, c: real, d: real, e: real, g: real)
    ensures (a + b + c) * (d + e + g) == a * d + a * e + a * g + b * d + b * e + b * g + c * d + c * e + c * g
  {
  }

  lemma FiveTerms(k: real, a: real, b: real, c: real, d: real, e: real)
    ensures k * (a + b + c + d + e) == k * a + k * b + k * c + k * d + k * e
  {
  }

  lemma SumOfLines(p: Dual, q: Dual, r: real, s: real, h: real)
    ensures Line(DAdd(p, q), r + s, h) == Line(p, r, h) + Line(q, s, h)
    ensures Line(DSub(p, q), r - s, h) == Line(p, r, h) - Line(q, s, h)
    ensures Line(Dual(-p.v, -p.d), -r, h) == -Line(p, r, h)
  {
    MulDistributes(h, p.d, q.d);
    MulDistributes(Mul(h, h), r, s);
    hide Mul;
  }

  lemma MulDistributes(x: real, a: real, b: real)
    ensures Mul(x, a + b) == Mul(x, a) + Mul(x, b) && Mul(x, a - b) == Mul(x, a) - Mul(x, b)
    ensures Mul(x, -a) == -Mul(x, a)
  {
  }

  lemma AtApp1(f: Elementary, env: Env, x: string, op: Op1, a: Expr, h: real)
    requires Polynomial(App1(op, a))
    ensures Forward1(f, op, At(f, env, x, a)) == Some(At(f, env, x, App1(op, a)))
    ensures Rest(f, env, x, App1(op, a), h) == Rest1(op, At(f, env, x, a), Rest(f, env, x, a, h), h)
  {
    PolynomialsDiffer(f, env, x, a);
    PolynomialsDiffer(f, env, x, App1(op, a));
  }

  lemma AtApp2(f: Elementary, env: Env, x: string, op: Op2, a: Expr, b: Expr, h: real)
    requires Polynomial(App2(op, a, b))
    ensures Forward2(f, op, At(f, env, x, a), At(f, env, x, b)) == Some(At(f, env, x, App2(op, a, b)))
    ensures Rest(f, env, x, App2(op, a, b), h) ==
            Rest2(op, At(f, env, x, a), At(f, env, x, b), Rest(f, env, x, a, h), Rest(f, env, x, b, h), h)
  {
    PolynomialsDiffer(f, env, x, a);
    PolynomialsDiffer(f, env, x, b);
    PolynomialsDiffer(f, env, x, App2(op, a, b));
  }

  lemma FixedNearby(f: Elementary, env: Env, x: string, e: Expr, h: real)
    requires e.Con? || e.Ref?
    ensures Is(f, Moved(env, x, h), e, Line(At(f, env, x, e), Rest(f, env, x, e, h), h))
  {
  }

  lemma Nearby1(f: Elementary, env: Env, op: Op1, a: Expr, p: Dual, r: real, h: real)
    requires Is(f, env, a, Line(p, r, h)) && op in {Plus1, Minus1, Sqr}
    ensures Is(f, env, App1(op, a), Line(Forward1(f, op, p).value, Rest1(op, p, r, h), h))
  {
    EvalApp1(f, env, op, a, Line(p, r, h));
    ProductOfLines(p, p, r, r, h);
    SumOfLines(p, p, r, r, h);
    hide Line, ProductRest, DMul, Mul;
  }

  lemma Nearby2(f: Elementary, env: Env, op: Op2, a: Expr, b: Expr, p: Dual, q: Dual, r: real, s: real, h: real)
    requires Is(f, env, a, Line(p, r, h)) && Is(f, env, b, Line(q, s, h)) && op in {Plus, Minus, Times}
    ensures Is(f, env, App2(op, a, b), Line(Forward2(f, op, p, q).value, Rest2(op, p, q, r, s, h), h))
  {
    EvalApp2(f, env, op, a, b, Line(p, r, h), Line(q, s, h));
    ProductOfLines(p, q, r, s, h);
    SumOfLines(p, q, r, s, h);
    hide Line, ProductRest, DMul, DAdd, DSub, Mul;
  }

  lemma {:induction false} ValueNearby(f: Elementary, env: Env, x: string, e: Expr, h: real)
    requires Polynomial(e)
    ensures Is(f, Moved(env, x, h), e, Line(At(f, env, x, e), Rest(f, env, x, e, h), h))
  {
    hide Line, Rest1, Rest2, Forward1, Forward2, Is;
    match e
    case Con(_) => FixedNearby(f, env, x, e, h);
    case Ref(_) => FixedNearby(f, env, x, e, h);
    case App1(op, a) =>
      ValueNearby(f, env, x, a, h);
      var p, r := At(f, env, x, a), Rest(f, env, x, a, h);
      Nearby1(f, Moved(env, x, h), op, a, p, r, h);
      AtApp1(f, env, x, op, a, h);
    case App2(op, a, b) =>
      ValueNearby(f, env, x, a, h);
      ValueNearby(f, env, x, b, h);
      var p, q, r, s := At(f, env, x, a), At(f, env, x, b), Rest(f, env, x, a, h), Rest(f, env, x, b, h);
      Nearby2(f, Moved(env, x, h), op, a, b, p, q, r, s, h);
      AtApp2(f, env, x, op, a, b, h);
  }

  // ---------------------------------------------------------------- the bound

  function Size(x: real): real { if x < 0.0 then -x else x }

  function ProductBound(p: Dual, q: Dual, b: real, c: real): real {
    LevelBound(p, q, b, c) + SlantBound(p, q, b, c) + Mul(b, c)
  }

  function LevelBound(p: Dual, q: Dual, b: real, c: real): real {
    Mul(Size(p.d), Size(q.d)) + Mul(Size(p.v), c) + Mul(Size(q.v), b)
  }

  function SlantBound(p: Dual, q: Dual, b: real, c: real): real { Mul(Size(p.d), c) + Mul(Size(q.d), b) }

  function Bound1(op: Op1, p: Dual, b: real): real {
    if op == Sqr then ProductBound(p, p, b, b) else b
  }

  function Bound2(op: Op2, p: Dual, q: Dual, b: real, c: real): real {
    if op == Times then ProductBound(p, q, b, c) else b + c
  }

  /** A bound of the rest that does not depend on how far x is moved. */
  function Bound(f: Elementary, env: Env, x: string, e: Expr): real
    requires Polynomial(e)
  {
    match e
    case Con(_) => 0.0
    case Ref(_) => 0.0
    case App1(op, a) => Bound1(op, At(f, env, x, a), Bound(f, env, x, a))
    case App2(op, a, b) => Bound2(op, At(f, env, x, a), At(f, env, x, b), Bound(f, env, x, a), Bound(f, env, x, b))
  }

  ghost predicate Within(x: real, b: real) { -b <= x <= b }

  lemma ProductWithin(x: real, y: real, a: real, b: real)
    requires Within(x, a) && Within(y, b)
    ensures Within(Mul(x, y), Mul(a, b))
  {
    ProductBounded(x, y, a, b);
  }

  lemma ScaledWithin(h: real, y: real, b: real)
    requires Within(h, 1.0) && Within(y, b)
    ensures Within(Mul(h, y), b)
  {
    ProductWithin(h, y, 1.0, b);
  }

  lemma LevelWithin(p: Dual, q: Dual, r: real, s: real, b: real, c: real)
    requires Within(r, b) && Within(s, c)
    ensures Within(Level(p, q, r, s), LevelBound(p, q, b, c))
  {
    hide Mul;
    ProductWithin(p.d, q.d, Size(p.d), Size(q.d));
    ProductWithin(p.v, s, Size(p.v), c);
    ProductWithin(q.v, r, Size(q.v), b);
  }

  lemma SlantWithin(p: Dual, q: Dual, r: real, s: real, b: real, c: real)
    requires Within(r, b) && Within(s, c)
    ensures Within(Slant(p, q, r, s), SlantBound(p, q, b, c))
  {
    hide Mul;
    ProductWithin(p.d, s, Size(p.d), c);
    ProductWithin(q.d, r, Size(q.d), b);
  }

  lemma RestWithin(p: Dual, q: Dual, r: real, s: real, b: real, c: real, h: real)
    requires Within(h, 1.0) && Within(r, b) && Within(s, c)
    ensures Within(ProductRest(p, q, r, s, h), ProductBound(p, q, b, c))
  {
    hide Mul, Level, Slant, LevelBound, SlantBound;
    LevelWithin(p, q, r, s, b, c);
    SlantWithin(p, q, r, s, b, c);
    ScaledWithin(h, Slant(p, q, r, s), SlantBound(p, q, b, c));
    ProductWithin(r, s, b, c);
    ScaledWithin(h, h, 1.0);
    ScaledWithin(Mul(h, h), Mul(r, s), Mul(b, c));
  }

  lemma {:induction false} RestIsBounded(f: Elementary, env: Env, x: string, e: Expr, h: real)
    requires Polynomial(e) && Within(h, 1.0)
    ensures Within(Rest(f, env, x, e, h), Bound(f, env, x, e))
  {
    hide ProductRest, ProductBound, Forward;
    match e
    case Con(_) =>
    case Ref(_) =>
    case App1(op, a) =>
      RestIsBounded(f, env, x, a, h);
      var p, r, b := At(f, env, x, a), Rest(f, env, x, a, h), Bound(f, env, x, a);
      RestWithin(p, p, r, r, b, b, h);
    case App2(op, a, b) =>
      RestIsBounded(f, env, x, a, h);
      RestIsBounded(f, env, x, b, h);
      RestWithin(At(f, env, x, a), At(f, env, x, b), Rest(f, env, x, a, h), Rest(f, env, x, b, h),
                 Bound(f, env, x, a), Bound(f, env, x, b), h);
  }

  lemma ValuesAt(f: Elementary, env: Env, x: string, e: Expr)
    requires Lawful(f) && env("e") == f.euler && Polynomial(e)
    ensures Is(f, env, e, At(f, env, x, e).v) && Is(f, env, Derivative(f, e, x), At(f, env, x, e).d)
  {
    PolynomialsDiffer(f, env, x, e);
    DerivativeIsSound(f, env, x, e);
  }

  /** Moving x by h changes the value by h times the symbolic derivative, up to a
      multiple of h^2 that has a bound independent of h. */
  lemma DerivativeIsSlope(f: Elementary, env: Env, x: string, e: Expr, h: real)
    requires Lawful(f) && env("e") == f.euler && Polynomial(e) && Within(h, 1.0)
    ensures exists v, d, w, q :: Is(f, env, e, v) && Is(f, env, Derivative(f, e, x), d) && Is(f, Moved(env, x, h), e, w)
              && Within(q, Bound(f, env, x, e)) && w == v + Mul(h, d) + Mul(Mul(h, h), q)
  {
    ValuesAt(f, env, x, e);
    ValueNearby(f, env, x, e, h);
    RestIsBounded(f, env, x, e, h);
    hide At, Derivative, Rest, Bound, Moved, Lawful, Is, Mul;
    var p, q := At(f, env, x, e), Rest(f, env, x, e, h);
    assert Line(p, q, h) == p.v + Mul(h, p.d) + Mul(Mul(h, h), q);
  }
}
