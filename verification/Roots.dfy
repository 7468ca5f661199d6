/** The trigonometric functions and the roots of unity they give. */
module Roots {
  import opened Complex

  /** Sine, cosine and pi, as the transforms use them. */
  datatype Trig = Trig(sin: real -> real, cos: real -> real, pi: real)

  ghost predicate Sums(t: Trig, a: real, b: real) {
    && t.cos(a + b) == t.cos(a) * t.cos(b) - t.sin(a) * t.sin(b)
    && t.sin(a + b) == t.sin(a) * t.cos(b) + t.cos(a) * t.sin(b)
  }

  ghost predicate Parity(t: Trig, a: real) {
    t.cos(-a) == t.cos(a) && t.sin(-a) == -t.sin(a)
  }

  /** The laws of sine and cosine that the transforms depend on. */
  ghost predicate Lawful(t: Trig) {
    && t.pi > 0.0
    && (forall a, b :: Sums(t, a, b))
    && (forall a :: Parity(t, a))
    && t.cos(0.0) == 1.0 && t.sin(0.0) == 0.0
    && t.cos(t.pi) == -1.0 && t.sin(t.pi) == 0.0
    && (forall a | 0.0 < a < 2.0 * t.pi :: t.cos(a) != 1.0)
  }

  function Polar(t: Trig, a: real): Complex {
    Complex(t.cos(a), t.sin(a))
  }

  lemma PolarSum(t: Trig, a: real, b: real)
    requires Lawful(t)
    ensures Polar(t, a + b) == Mul(Polar(t, a), Polar(t, b))
  {
    assert Sums(t, a, b);
  }

  lemma PolarConj(t: Trig, a: real)
    requires Lawful(t)
    ensures Polar(t, -a) == Conj(Polar(t, a))
  {
    assert Parity(t, a);
  }

  /** The increments of the twiddle recurrence: -2 sin^2(a/2) is cos(a) - 1. */
  lemma HalfAngle(t: Trig, a: real)
    requires Lawful(t)
    ensures -2.0 * t.sin(0.5 * a) * t.sin(0.5 * a) == t.cos(a) - 1.0
  {
    var h := 0.5 * a;
    assert Sums(t, h, h) && Sums(t, h, -h) && Parity(t, h);
    assert h + h == a && h + -h == 0.0;
  }

  // -------------------------------------------------------- roots of unity

  /** The angle of a full turn; the transform (isign > 0) turns clockwise, its
      inverse counterclockwise. */
  function Turn(t: Trig, isign: int): real {
    -(isign as real) * (2.0 * t.pi)
  }

  /** The angle of the q-th power of the n-th root of unity. */
  function Angle(t: Trig, isign: int, n: nat, q: int): real
    requires n > 0
  {
    Turn(t, isign) * (q as real) / (n as real)
  }

  function Root(t: Trig, isign: int, n: nat, q: int): Complex
    requires n > 0
  {
    Polar(t, Angle(t, isign, n, q))
  }

  lemma AngleOf(t: Trig, n: nat, q: int) returns (a: real)
    requires n > 0
    ensures a == 2.0 * t.pi * (q as real) / (n as real) && Angle(t, 1, n, q) == -a && Angle(t, -1, n, q) == a
  {
    var c, x, y := 2.0 * t.pi, q as real, n as real;
    a := c * x / y;
    NegatedFraction(c, x, y);
    assert Turn(t, 1) == -c && Turn(t, -1) == c;
  }

  /** Written out: the cosine and the sine of -2 pi q / n, or of 2 pi q / n for the
      other direction. */
  lemma RootIs(t: Trig, n: nat, q: int)
    requires Lawful(t) && n > 0
    ensures var a := 2.0 * t.pi * (q as real) / (n as real);
      Root(t, 1, n, q) == Complex(t.cos(a), -t.sin(a)) && Root(t, -1, n, q) == Complex(t.cos(a), t.sin(a))
  {
    var a := AngleOf(t, n, q);
    assert Parity(t, a);
    hide Angle, Lawful;
  }

  lemma RootSum(t: Trig, isign: int, n: nat, p: int, q: int)
    requires Lawful(t) && n > 0
    ensures Root(t, isign, n, p + q) == Mul(Root(t, isign, n, p), Root(t, isign, n, q))
  {
    FractionSum(Turn(t, isign), p as real, q as real, n as real);
    assert (p + q) as real == p as real + q as real;
    assert Angle(t, isign, n, p + q) == Angle(t, isign, n, p) + Angle(t, isign, n, q);
    PolarSum(t, Angle(t, isign, n, p), Angle(t, isign, n, q));
  }

  lemma FractionSum(c: real, p: real, q: real, n: real)
    requires n > 0.0
    ensures c * (p + q) / n == c * p / n + c * q / n
  {
  }

  lemma RootZero(t: Trig, isign: int, n: nat)
    requires Lawful(t) && n > 0
    ensures Root(t, isign, n, 0) == One
  {
    assert Angle(t, isign, n, 0) == 0.0;
  }

  /** Even powers of the 2n-th root are powers of the n-th. */
  lemma RootHalves(t: Trig, isign: int, n: nat, q: int)
    requires n > 0
    ensures Root(t, isign, 2 * n, 2 * q) == Root(t, isign, n, q)
  {
    Fraction(Turn(t, isign), q as real, n as real);
    assert Angle(t, isign, 2 * n, 2 * q) == Angle(t, isign, n, q);
  }

  lemma Fraction(c: real, q: real, n: real)
    requires n > 0.0
    ensures c * (2.0 * q) / (2.0 * n) == c * q / n
  {
  }

  /** The n-th power of the 2n-th root is -1. */
  lemma RootMiddle(t: Trig, isign: int, n: nat)
    requires Lawful(t) && n > 0 && (isign == 1 || isign == -1)
    ensures Root(t, isign, 2 * n, n) == Complex(-1.0, 0.0)
  {
    var a, c := Angle(t, isign, 2 * n, n), Turn(t, isign);
    MiddleAngle(t, isign, n);
    assert Parity(t, t.pi);
    assert c == if isign == 1 then -(2.0 * t.pi) else 2.0 * t.pi;
    assert a == if isign == 1 then -t.pi else t.pi;
  }

  lemma MiddleAngle(t: Trig, isign: int, n: nat)
    requires n > 0
    ensures Angle(t, isign, 2 * n, n) == Turn(t, isign) / 2.0
  {
    hide Turn;
    HalfTurn(Turn(t, isign), n as real, (2 * n) as real);
  }

  lemma HalfTurn(c: real, n: real, m: real)
    requires n > 0.0 && m == 2.0 * n
    ensures c * n / m == c / 2.0
  {
    var h := c / 2.0;
    assert c * n == h * m;
    assert (h * m) / m == h;
  }

  /** The n-th power of the n-th root is 1. */
  lemma RootFull(t: Trig, isign: int, n: nat)
    requires Lawful(t) && n > 0 && (isign == 1 || isign == -1)
    ensures Root(t, isign, n, n) == One
  {
    hide Root, Lawful, Mul;
    RootMiddle(t, isign, n);
    RootHalves(t, isign, n, n);
    RootSum(t, isign, 2 * n, n, n);
    MinusOneSquared();
  }

  lemma MinusOneSquared()
    ensures Mul(Complex(-1.0, 0.0), Complex(-1.0, 0.0)) == One
  {
  }

  lemma RootConj(t: Trig, isign: int, n: nat, q: int)
    requires Lawful(t) && n > 0
    ensures Root(t, -isign, n, q) == Conj(Root(t, isign, n, q))
    ensures Root(t, isign, n, -q) == Conj(Root(t, isign, n, q))
  {
    NegatedFraction(Turn(t, isign), q as real, n as real);
    assert Angle(t, -isign, n, q) == -Angle(t, isign, n, q);
    assert Angle(t, isign, n, -q) == -Angle(t, isign, n, q);
    PolarConj(t, Angle(t, isign, n, q));
  }

  lemma NegatedFraction(c: real, q: real, n: real)
    requires n > 0.0
    ensures (-c) * q / n == -(c * q / n)
    ensures c * (-q) / n == -(c * q / n)
  {
  }
}
