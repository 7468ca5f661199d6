/** The names `n[r,c]` of the elements of a vector of matrices. */
module MatrixNames {
  import opened Options

  predicate IsDigit(c: char) { '0' <= c <= '9' }

  predicate IsSpace(c: char) { c == ' ' || '\t' <= c <= '\r' }

  function DigitOf(d: nat): (c: char)
    requires d < 10
    ensures IsDigit(c) && (c as int) - ('0' as int) == d
  {
    ('0' as int + d) as char
  }

  predicate AllDigits(s: string) {
    forall j | 0 <= j < |s| :: IsDigit(s[j])
  }

  /** The decimal digits of n. */
  function Decimal(n: nat): (s: string)
    ensures s != [] && AllDigits(s)
  {
    if n < 10 then [DigitOf(n)] else Decimal(n / 10) + [DigitOf(n % 10)]
  }

  /** Reads digits up to the first other character. */
  function Digits(s: string, value: int): int {
    if s == "" || !IsDigit(s[0]) then value
    else Digits(s[1..], 10 * value + (s[0] as int - '0' as int))
  }

  /** The C library's atoi: leading space, a sign, digits. */
  function Atoi(s: string): int {
    if s == "" then 0
    else if IsSpace(s[0]) then Atoi(s[1..])
    else if s[0] == '-' then -Digits(s[1..], 0)
    else if s[0] == '+' then Digits(s[1..], 0)
    else Digits(s, 0)
  }

  /** The position of the first c from position i on, or the length. */
  function IndexOf(s: string, c: char, i: nat): (k: nat)
    requires i <= |s|
    ensures i <= k <= |s| && (k < |s| ==> s[k] == c)
    ensures forall j | i <= j < k :: s[j] != c
    decreases |s| - i
  {
    if i == |s| || s[i] == c then i else IndexOf(s, c, i + 1)
  }

  function MatrixString(n: string, r: nat, c: nat): string {
    n + "[" + Decimal(r + 1) + "," + Decimal(c + 1) + "]"
  }

  datatype Index = Index(name: string, r: int, c: int)

  /** The name and indices, if the string is of the form n[r,c]. */
  function MatrixIndex(s: string): Option<Index> {
    var i := IndexOf(s, '[', 0);
    if i == |s| then None
    else
      var j := IndexOf(s, ',', i);
      if j == |s| then None
      else
        var k := IndexOf(s, ']', j);
        if k == |s| || k + 1 != |s| || i == 0 then None
        else Some(Index(s[..i], Atoi(s[i + 1..]) - 1, Atoi(s[j + 1..]) - 1))
  }

  // --------------------------------------------------------------- round trip

  lemma {:induction false} DigitsAppend(s: string, rest: string, value: int)
    requires AllDigits(s)
    ensures Digits(s + rest, value) == Digits(rest, Digits(s, value))
    decreases |s|
  {
    if s == "" {
      assert s + rest == rest;
    } else {
      assert (s + rest)[1..] == s[1..] + rest;
      DigitsAppend(s[1..], rest, 10 * value + (s[0] as int - '0' as int));
    }
  }

  lemma {:induction false} DigitsOfDecimal(n: nat, rest: string)
    requires rest == "" || !IsDigit(rest[0])
    ensures Digits(Decimal(n) + rest, 0) == n
  {
    var d := n % 10;
    if n < 10 {
      OneDigit(0, d, rest);
    } else {
      var front := Decimal(n / 10);
      DigitsOfDecimal(n / 10, "");
      assert front + "" == front;
      assert Decimal(n) + rest == front + ([DigitOf(d)] + rest);
      hide Decimal;
      DigitsAppend(front, [DigitOf(d)] + rest, 0);
      OneDigit(n / 10, d, rest);
    }
  }

  lemma OneDigit(value: int, d: nat, rest: string)
    requires d < 10 && (rest == "" || !IsDigit(rest[0]))
    ensures Digits([DigitOf(d)] + rest, value) == 10 * value + d
  {
    assert ([DigitOf(d)] + rest)[1..] == rest;
  }

  lemma AtoiOfDecimal(n: nat, rest: string)
    requires rest == "" || !IsDigit(rest[0])
    ensures Atoi(Decimal(n) + rest) == n
  {
    DigitsOfDecimal(n, rest);
    var s := Decimal(n) + rest;
    assert s[0] == Decimal(n)[0];
  }

  lemma FirstAfter(a: string, c: char, b: string, i: nat)
    requires i <= |a| && forall j | i <= j < |a| :: a[j] != c
    ensures IndexOf(a + [c] + b, c, i) == |a|
  {
    var s := a + [c] + b;
    assert s[|a|] == c && forall j | i <= j < |a| :: s[j] == a[j];
  }

  /** A character that is no digit is not found in between. */
  lemma FirstAfterDigits(n: string, d: char, x: string, c: char, b: string)
    requires c != d && !IsDigit(c) && AllDigits(x)
    ensures IndexOf(n + [d] + x + [c] + b, c, |n|) == |n| + 1 + |x|
  {
    var a := n + [d] + x;
    forall j | |n| <= j < |a|
      ensures a[j] != c
    {
      if j > |n| { assert a[j] == x[j - |n| - 1]; }
    }
    FirstAfter(a, c, b, |n|);
  }

  lemma LastAfterDigits(n: string, d: char, x: string, c: char)
    requires c != d && !IsDigit(c) && AllDigits(x)
    ensures IndexOf(n + [d] + x + [c], c, |n|) == |n| + 1 + |x|
  {
    FirstAfterDigits(n, d, x, c, "");
    Nothing(n + [d] + x + [c]);
  }

  lemma Nothing(s: string)
    ensures s + "" == s
  {
  }

  lemma Assoc(a: string, b: string, c: string)
    ensures a + b + c == a + (b + c)
  {
  }

  /** The parts after the first bracket, and after the comma. */
  lemma Regrouped(n: string, x: string, y: string)
    ensures n + "[" + x + "," + y + "]" == n + "[" + (x + "," + y + "]")
    ensures n + "[" + x + "," + y + "]" == n + "[" + x + "," + (y + "]")
    ensures x + "," + y + "]" == x + ("," + y + "]")
  {
    var p := n + "[";
    Assoc(p, x, ",");
    Assoc(p, x + ",", y);
    Assoc(p, x + "," + y, "]");
    Assoc(p + x + ",", y, "]");
    Assoc(x, ",", y);
    Assoc(x, "," + y, "]");
  }

  lemma BracketAt(n: string, x: string, y: string)
    requires '[' !in n
    ensures IndexOf(n + "[" + x + "," + y + "]", '[', 0) == |n|
  {
    Regrouped(n, x, y);
    FirstAfter(n, '[', x + "," + y + "]", 0);
  }

  lemma CommaAt(n: string, x: string, y: string)
    requires AllDigits(x)
    ensures IndexOf(n + "[" + x + "," + y + "]", ',', |n|) == |n| + 1 + |x|
  {
    Regrouped(n, x, y);
    FirstAfterDigits(n, '[', x, ',', y + "]");
  }

  lemma ClosingAt(a: string, y: string)
    requires AllDigits(y)
    ensures IndexOf(a + "," + y + "]", ']', |a|) == |a| + 1 + |y|
  {
    LastAfterDigits(a, ',', y, ']');
  }

  lemma After(a: string, b: string, i: nat)
    requires i == |a|
    ensures (a + b)[i..] == b && (a + b)[..i] == a
  {
  }

  lemma Slices(n: string, x: string, y: string)
    ensures var s, k := n + "[" + x + "," + y + "]", |n| + 1 + |x|;
            s[..|n|] == n && s[|n| + 1..] == x + ("," + y + "]") && s[k + 1..] == y + "]"
  {
    Regrouped(n, x, y);
    Assoc(n, "[", x + "," + y + "]");
    After(n, "[" + (x + "," + y + "]"), |n|);
    After(n + "[", x + "," + y + "]", |n| + 1);
    After(n + "[" + x + ",", y + "]", |n| + 1 + |x| + 1);
  }

  // -------------------------------------------------------- values by place

  function TenTo(k: nat): nat { if k == 0 then 1 else 10 * TenTo(k - 1) }

  /** The value of a string of digits, each weighed by its place. */
  function Value(s: string): int {
    if s == "" then 0 else (s[0] as int - '0' as int) * TenTo(|s| - 1) + Value(s[1..])
  }

  lemma {:induction false} DigitsByPlace(s: string, value: int)
    requires AllDigits(s)
    ensures Digits(s, value) == value * TenTo(|s|) + Value(s)
    decreases |s|
  {
    if s != "" {
      var d := s[0] as int - '0' as int;
      DigitsByPlace(s[1..], 10 * value + d);
      assert TenTo(|s|) == 10 * TenTo(|s| - 1);
      Weighed(value, d, TenTo(|s| - 1));
    }
  }

  lemma Weighed(value: int, d: int, t: int)
    ensures (10 * value + d) * t == value * (10 * t) + d * t
  {
  }

  /** The digits that a number starts with are read, whatever follows them. */
  lemma AtoiOfDigits(x: string, rest: string)
    requires x != "" && AllDigits(x) && (rest == "" || !IsDigit(rest[0]))
    ensures Atoi(x + rest) == Value(x)
  {
    DigitsAppend(x, rest, 0);
    DigitsByPlace(x, 0);
    assert (x + rest)[0] == x[0];
  }

  /** Leading space is skipped and a sign is heeded. */
  lemma AtoiOfSigned(s: string, x: string)
    requires x != "" && AllDigits(x)
    ensures Atoi(" " + s) == Atoi(s) && Atoi("-" + x) == -Value(x) && Atoi("+" + x) == Value(x)
  {
    assert (" " + s)[1..] == s && ("-" + x)[1..] == x && ("+" + x)[1..] == x;
    DigitsByPlace(x, 0);
  }

  /** What an index in a name means: n[x,y] is the element of row x and column y,
      counted from one. */
  lemma IndexMeans(n: string, x: string, y: string)
    requires n != "" && '[' !in n && x != "" && AllDigits(x) && y != "" && AllDigits(y)
    ensures MatrixIndex(n + "[" + x + "," + y + "]") == Some(Index(n, Value(x) - 1, Value(y) - 1))
  {
    hide IndexOf, Atoi, Value;
    var s := n + "[" + x + "," + y + "]";
    BracketAt(n, x, y);
    CommaAt(n, x, y);
    ClosingAt(n + "[" + x, y);
    AtoiOfDigits(x, "," + y + "]");
    AtoiOfDigits(y, "]");
    Slices(n, x, y);
  }

  /** What is printed for row r and column c: their numbers from one on, the row first,
      without leading zeros. */
  lemma StringMeans(n: string, r: nat, c: nat) returns (x: string, y: string)
    ensures MatrixString(n, r, c) == n + "[" + x + "," + y + "]"
    ensures AllDigits(x) && x != "" && x[0] != '0' && Value(x) == r + 1
    ensures AllDigits(y) && y != "" && y[0] != '0' && Value(y) == c + 1
  {
    x, y := Decimal(r + 1), Decimal(c + 1);
    DecimalByPlace(r + 1);
    DecimalByPlace(c + 1);
  }

  lemma DecimalByPlace(n: nat)
    requires n > 0
    ensures Value(Decimal(n)) == n && Decimal(n)[0] != '0'
  {
    DigitsOfDecimal(n, "");
    DigitsByPlace(Decimal(n), 0);
    assert Decimal(n) + "" == Decimal(n);
    NoLeadingZero(n);
  }

  lemma {:induction false} NoLeadingZero(n: nat)
    requires n > 0
    ensures Decimal(n)[0] != '0'
  {
    if n >= 10 { NoLeadingZero(n / 10); }
  }

  /** Characters that are digits, and their values. */
  lemma DigitValues(c: char)
    ensures IsDigit(c) <==> c in "0123456789"
    ensures forall i | 0 <= i < 10 :: Value(["0123456789"[i]]) == i
  {
    assert "0123456789"[0] == '0' && "0123456789"[1] == '1' && "0123456789"[2] == '2' && "0123456789"[3] == '3' && "0123456789"[4] == '4';
    assert "0123456789"[5] == '5' && "0123456789"[6] == '6' && "0123456789"[7] == '7' && "0123456789"[8] == '8' && "0123456789"[9] == '9';
    forall i | 0 <= i < 10
      ensures Value(["0123456789"[i]]) == i
    {
      assert ["0123456789"[i]][1..] == "" && TenTo(0) == 1;
    }
  }

  // --------------------------------------------------------------- reading back

  lemma NameReadBack(n: string, r: nat, c: nat)
    requires n != "" && '[' !in n
    ensures MatrixIndex(MatrixString(n, r, c)) == Some(Index(n, r, c))
  {
    hide IndexOf, Atoi, Decimal;
    var s, x, y := MatrixString(n, r, c), Decimal(r + 1), Decimal(c + 1);
    BracketAt(n, x, y);
    CommaAt(n, x, y);
    ClosingAt(n + "[" + x, y);
    AtoiOfDecimal(r + 1, "," + y + "]");
    AtoiOfDecimal(c + 1, "]");
    Slices(n, x, y);
  }

  /** Names can be read back exactly when they are not empty and have no bracket. */
  lemma MatrixNameRoundTrip(n: string, r: nat, c: nat)
    ensures MatrixIndex(MatrixString(n, r, c)) == Some(Index(n, r, c)) <==> n != "" && '[' !in n
  {
    var s := MatrixString(n, r, c);
    if n != "" && '[' !in n {
      NameReadBack(n, r, c);
    } else {
      var i := IndexOf(s, '[', 0);
      assert i < |n| || i == 0 by {
        if k :| 0 <= k < |n| && n[k] == '[' { assert s[k] == '['; }
        assert n == "" ==> s[0] == '[';
      }
      assert n != "" ==> |s[..i]| < |n|;
    }
  }
}
