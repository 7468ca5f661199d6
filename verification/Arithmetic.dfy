/** Facts about products and quotients of reals. */
module Arithmetic {

  lemma TimesOne(x: real, one: real)
    requires one == 1.0
    ensures x * one == x && one * x == x
  {
  }

  lemma QuotientTimes(x: real, y: real)
    requires y != 0.0
    ensures x / y * y == x && y * (x / y) == x
  {
  }

  lemma Reciprocal(x: real, y: real)
    requires y != 0.0
    ensures x / y == x * (1.0 / y)
  {
  }

  lemma ReciprocalTimes(x: real, y: real)
    requires y != 0.0
    ensures x * (1.0 / y) * y == x
  {
  }

  lemma InverseOf(y: real) returns (g: real)
    requires y != 0.0
    ensures g != 0.0 && y * g == 1.0 && g == 1.0 / y
  {
    g := 1.0 / y;
  }

  lemma TimesInverse(x: real, y: real, g: real)
    requires y * g == 1.0
    ensures (x * g) * y == x
  {
    assert (x * g) * y == x * (y * g);
  }

  lemma PositiveProduct(x: real, y: real) returns (p: real)
    requires x > 0.0 && y > 0.0
    ensures p == x * y && p > 0.0
  {
    p := x * y;
  }

  lemma Square(x: real) returns (p: real)
    ensures p == x * x
    ensures p >= 0.0 && (x != 0.0 ==> p > 0.0)
  {
    if x > 0.0 {
      p := PositiveProduct(x, x);
    } else if x < 0.0 {
      p := PositiveProduct(-x, -x);
    } else {
      p := 0.0;
    }
  }

  /** A factor that is not zero can be cancelled. */
  lemma SameFactor(x: real, y: real, g: real)
    requires g != 0.0
    ensures x * g == y * g <==> x == y
  {
    var d := x - y;
    assert x * g - y * g == d * g;
    if d > 0.0 {
      var p := PositiveProduct(d, if g > 0.0 then g else -g);
    } else if d < 0.0 {
      var p := PositiveProduct(-d, if g > 0.0 then g else -g);
    }
  }

  lemma ProductBounded(x: real, y: real, a: real, b: real)
    requires -a <= x <= a && -b <= y <= b
    ensures -(a * b) <= x * y <= a * b
  {
    assert (a - x) * (b + y) >= 0.0 && (a + x) * (b - y) >= 0.0;
    assert (a - x) * (b - y) >= 0.0 && (a + x) * (b + y) >= 0.0;
  }

  lemma LargerSquare(x: real, y: real)
    requires 0.0 <= x < y
    ensures x * x < y * y
  {
    var p := PositiveProduct(y - x, y + x);
    assert p == y * y - x * x;
  }

  lemma SameBase(x: real, y: real)
    requires x >= 0.0 && y >= 0.0 && x * x == y * y
    ensures x == y
  {
    if x < y {
      LargerSquare(x, y);
    } else if y < x {
      LargerSquare(y, x);
    }
  }
}
