/** The QR factorization by Householder reflections with column pivoting, in place. */
module Householder {
  import opened Arithmetic
  import opened EqnSys
  import opened LinearAlgebra
  import opened LinearSystems
  import opened LuFactors
  import opened MatrixStore
  import opened QrSteps
  import opened Reflections
  import opened RowOperations

  /** The square root and the length of a pair, as the mathematical library has them. */
  datatype Lengths = Lengths(sqrt: real -> real, hypot: (real, real) -> real)

  ghost predicate RootLaw(e: Lengths, x: real) {
    x >= 0.0 ==> e.sqrt(x) >= 0.0 && e.sqrt(x) * e.sqrt(x) == x
  }

  ghost predicate HypotLaw(e: Lengths, x: real, y: real) {
    e.hypot(x, y) >= 0.0 && e.hypot(x, y) * e.hypot(x, y) == x * x + y * y
  }

  ghost predicate Lawful(e: Lengths) {
    (forall x :: RootLaw(e, x)) && (forall x, y :: HypotLaw(e, x, y))
  }

  // ------------------------------------------------------------ column lengths

  /** Adds the square of a to scale^2 n without squaring large numbers. */
  method EuclidianUpdate(a: real, n0: real, scale0: real) returns (n: real, scale: real)
    requires scale0 >= 0.0 && n0 >= 1.0
    ensures scale >= 0.0 && n >= 1.0 && scale * scale * n == scale0 * scale0 * n0 + a * a
  {
    n, scale := n0, scale0;
    if a != 0.0 {
      var ax := Abs(a);
      assert ax * ax == a * a;
      if scale < ax {
        var x := scale / ax;
        Rescaled(scale, ax, n, x);
        n := 1.0 + n * x * x;
        scale := ax;
      } else {
        var x := ax / scale;
        Enlarged(scale, ax, n, x);
        n := n + x * x;
      }
    }
  }

  lemma Rescaled(s: real, a: real, n: real, x: real)
    requires a > 0.0 && x == s / a && n >= 1.0
    ensures a * a * (1.0 + n * x * x) == s * s * n + a * a && 1.0 + n * x * x >= 1.0
  {
    assert x * a == s;
    assert a * a * (n * x * x) == n * ((x * a) * (x * a));
    assert x * x >= 0.0;
    assert n * (x * x) >= 0.0;
    assert n * x * x == n * (x * x);
  }

  lemma Enlarged(s: real, a: real, n: real, x: real)
    requires s > 0.0 && x == a / s && n >= 1.0
    ensures s * s * (n + x * x) == s * s * n + a * a && n + x * x >= 1.0
  {
    assert x * s == a;
    assert s * s * (x * x) == (x * s) * (x * s);
    assert x * x >= 0.0;
  }

  /** Column c from row r on. */
  ghost function From(m: Matrix, c: int, r: int): Vector {
    k => if k >= r then m(k, c) else 0.0
  }

  /** The length of a column from row r on. */
  method EuclidianC(e: Lengths, A: array2<real>, c: nat, r: nat, ghost m: Matrix) returns (s: real)
    requires Lawful(e) && A.Length0 == A.Length1 && c < A.Length1 && r <= A.Length0 && Holds(A, m)
    ensures s >= 0.0 && s * s == Dot(A.Length0, From(m, c, r), From(m, c, r))
  {
    var scale, n := 0.0, 1.0;
    ghost var u := From(m, c, r);
    SumZero(r, Times(u, u));
    for i := r to A.Length0
      invariant scale >= 0.0 && n >= 1.0 && scale * scale * n == Dot(i, u, u)
    {
      hide Lawful, Dot;
      NextSquare(m, c, r, i);
      n, scale := EuclidianUpdate(A[i, c], n, scale);
    }
    s := ScaledRoot(e, scale, n);
  }

  lemma NextSquare(m: Matrix, c: int, r: int, i: nat)
    requires r <= i
    ensures Dot(i + 1, From(m, c, r), From(m, c, r)) == Dot(i, From(m, c, r), From(m, c, r)) + m(i, c) * m(i, c)
  {
  }

  method ScaledRoot(e: Lengths, scale: real, n: real) returns (s: real)
    requires Lawful(e) && scale >= 0.0 && n >= 1.0
    ensures s >= 0.0 && s * s == scale * scale * n
  {
    assert RootLaw(e, n);
    s := scale * e.sqrt(n);
    SquareOfProduct(scale, e.sqrt(n), n);
  }

  lemma SquareOfProduct(x: real, y: real, n: real)
    requires x >= 0.0 && y >= 0.0 && y * y == n
    ensures x * y >= 0.0 && (x * y) * (x * y) == x * x * n
  {
    assert (x * y) * (x * y) == x * x * (y * y);
  }

  // ------------------------------------------------------------- the reflection

  /** The numbers of a reflection: the signed length g, b, its reciprocal and the factor t. */
  method ReflectionNumbers(e: Lengths, a: real, s: real, ghost n: nat, ghost m: Matrix, ghost c: nat)
    returns (g: real, b: real, t: real, ghost h: real)
    requires Lawful(e) && c < n && a == m(c, c) && s > 0.0 && s * s == Dot(n, Tail(m, c), Tail(m, c))
    ensures Numbers(n, m, c, s, g, b, h, t) && t != 0.0 && b != 0.0 && h == 1.0 / b
  {
    assert HypotLaw(e, a, s);
    var l := e.hypot(a, s);
    LengthPositive(a, s, l);
    g := if a < 0.0 then -1.0 * l else 1.0 * l;
    b := a + g;
    t := b / g;
    h := 1.0 / b;
    assert t * g == b && b * h == 1.0;
    assert g * g == l * l;
  }

  lemma LengthPositive(a: real, s: real, l: real)
    requires s > 0.0 && l >= 0.0 && l * l == a * a + s * s
    ensures l > 0.0
  {
    var q := Square(s);
    assert a * a >= 0.0;
  }

  method HouseholderCreateLeft(e: Lengths, A: array2<real>, c: nat, ghost m: Matrix)
    returns (t: real, ghost s: real, ghost g: real, ghost b: real, ghost h: real)
    requires Lawful(e) && A.Length0 == A.Length1 && c < A.Length1 && Holds(A, m)
    modifies A
    ensures t == 0.0 ==> Holds(A, m) && Dot(A.Length0, Tail(m, c), Tail(m, c)) == 0.0
    ensures t != 0.0 ==> Numbers(A.Length0, m, c, s, g, b, h, t) && Holds(A, Created(m, c, h, g))
  {
    ghost var n := A.Length0;
    var l := EuclidianC(e, A, c, c + 1, m);
    SumCongruence(n, Times(From(m, c, c + 1), From(m, c, c + 1)), Times(Tail(m, c), Tail(m, c)));
    s := l;
    if l == 0.0 {
      t, g, b, h := 0.0, 0.0, 0.0, 0.0;
    } else {
      var g', b';
      g', b', t, h := ReflectionNumbers(e, A[c, c], l, n, m, c);
      g, b := g', b';
      StoreVector(A, c, b', g', m, h);
    }
  }

  /** Column c with the elements below the diagonal multiplied by h, down to row r. */
  ghost function Multiplied(m: Matrix, c: nat, h: real, r: nat): Matrix {
    (i, j) => if j == c && c < i < r then m(i, j) * h else m(i, j)
  }

  method StoreVector(A: array2<real>, c: nat, b: real, g: real, ghost m: Matrix, ghost h: real)
    requires A.Length0 == A.Length1 && c < A.Length1 && Holds(A, m) && b != 0.0 && h == 1.0 / b
    modifies A
    ensures Holds(A, Created(m, c, h, g))
  {
    for r := c + 1 to A.Length0
      invariant Holds(A, Multiplied(m, c, h, r))
    {
      hide Multiplied;
      DivideStored(A, r, c, b, h, m);
    }
    A[c, c] := -g;
  }

  method DivideStored(A: array2<real>, r: nat, c: nat, b: real, ghost h: real, ghost m: Matrix)
    requires c < r < A.Length0 && c < A.Length1 && Holds(A, Multiplied(m, c, h, r)) && b != 0.0 && h == 1.0 / b
    modifies A
    ensures Holds(A, Multiplied(m, c, h, r + 1))
  {
    Reciprocal(A[r, c], b);
    A[r, c] := A[r, c] / b;
  }

  /** Column r less f times the stored vector, in rows c to k - 1. */
  ghost function Subtracted(m: Matrix, c: nat, r: nat, f: real, k: nat): Matrix {
    (i, j) => if j == r && c <= i < k then m(i, j) - f * Stored(m, c)(i) else m(i, j)
  }

  /** Subtracts f times the stored vector from column r: its reflection. */
  method ReflectColumn(A: array2<real>, c: nat, r: nat, t: real, ghost m: Matrix)
    requires A.Length0 == A.Length1 && c < r < A.Length1 && Holds(A, m)
    modifies A
    ensures Holds(A, ReflectedColumn(A.Length0, m, c, r, t))
  {
    var f := Project(A, c, r, m);
    f := f * t;
    for k := c to A.Length0
      invariant Holds(A, Subtracted(m, c, r, f, k))
    {
      hide Subtracted, Dot;
      SubtractStored(A, k, c, r, f, m);
    }
    SubtractedAll(A.Length0, m, c, r, t, f);
  }

  lemma SubtractedAll(n: nat, m: Matrix, c: nat, r: nat, t: real, f: real)
    requires f == Dot(n, Stored(m, c), Column(m, r)) * t
    ensures forall i, j | 0 <= i < n && 0 <= j < n :: Subtracted(m, c, r, f, n)(i, j) == ReflectedColumn(n, m, c, r, t)(i, j)
  {
    var d := Dot(n, Stored(m, c), Column(m, r));
    hide Dot;
    forall i | 0 <= i < n
      ensures Subtracted(m, c, r, f, n)(i, r) == ReflectedColumn(n, m, c, r, t)(i, r)
    {
      var u, x := Stored(m, c)(i), m(i, r);
      SameProducts(t, d, f, u);
      assert ReflectedColumn(n, m, c, r, t)(i, r) == x - t * d * u;
      assert Subtracted(m, c, r, f, n)(i, r) == if c <= i then x - f * u else x;
    }
  }

  lemma SameProducts(t: real, d: real, f: real, u: real)
    requires f == d * t
    ensures t * d * u == f * u && (u == 0.0 ==> f * u == 0.0)
  {
    assert t * d == f;
  }

  ghost function ReflectedColumn(n: nat, m: Matrix, c: int, r: int, t: real): Matrix {
    (i, j) => if j == r then Reflect(n, Stored(m, c), t, Column(m, r))(i) else m(i, j)
  }

  /** The scalar product of the stored vector and column r. */
  method Project(A: array2<real>, c: nat, r: nat, ghost m: Matrix) returns (f: real)
    requires A.Length0 == A.Length1 && c < r < A.Length1 && Holds(A, m)
    ensures f == Dot(A.Length0, Stored(m, c), Column(m, r))
  {
    f := A[c, r];
    ghost var u, x := Stored(m, c), Column(m, r);
    SumZero(c, Times(u, x));
    assert Dot(c + 1, u, x) == f;
    for k := c + 1 to A.Length0
      invariant f == Dot(k, u, x)
    {
      f := f + A[k, c] * A[k, r];
    }
  }

  method SubtractStored(A: array2<real>, k: nat, c: nat, r: nat, f: real, ghost m: Matrix)
    requires A.Length0 == A.Length1 && c <= k < A.Length0 && c < r < A.Length1 && Holds(A, Subtracted(m, c, r, f, k))
    modifies A
    ensures Holds(A, Subtracted(m, c, r, f, k + 1))
  {
    var y := if k == c then f else f * A[k, c];
    TimesOne(f, 1.0);
    assert y == f * Stored(m, c)(k);
    A[k, r] := A[k, r] - y;
  }

  /** Applies the reflection stored in column c to the columns right of it. */
  method HouseholderApplyLeft(A: array2<real>, c: nat, t: real, ghost m: Matrix)
    requires A.Length0 == A.Length1 && c < A.Length1 && Holds(A, m)
    modifies A
    ensures Holds(A, Applied(A.Length0, m, c, t))
  {
    ghost var n, w, z := A.Length0, m, Applied(A.Length0, m, c, t);
    for r := c + 1 to A.Length1
      invariant Holds(A, w)
      invariant forall i, j :: w(i, j) == if j < r then z(i, j) else m(i, j)
    {
      ReflectColumn(A, c, r, t, w);
      SameColumn(n, m, w, c, r, t);
      w := ReflectedColumn(n, w, c, r, t);
    }
  }

  lemma SameColumn(n: nat, m: Matrix, w: Matrix, c: nat, r: nat, t: real)
    requires forall i :: w(i, c) == m(i, c) && w(i, r) == m(i, r)
    ensures forall i :: Reflect(n, Stored(w, c), t, Column(w, r))(i) == Reflect(n, Stored(m, c), t, Column(m, r))(i)
  {
    DotCongruence(n, Stored(w, c), Stored(m, c), Column(w, r), Column(m, r));
  }

  // ---------------------------------------------------------- the factorization

  method ExchangeColumns(A: array2<real>, c: nat, q: nat, ghost m: Matrix)
    requires A.Length0 == A.Length1 && c < A.Length1 && q < A.Length1 && Holds(A, m)
    modifies A
    ensures Holds(A, SwapColumns(m, c, q))
  {
    forall i, j | 0 <= i < A.Length0 && 0 <= j < A.Length1 {
      A[i, j] := A[i, if j == c then q else if j == q then c else j];
    }
  }

  /** pivot is the first of the largest lengths from c on. */
  ghost predicate FirstLargest(l: seq<real>, c: nat, pivot: nat) {
    && c <= pivot < |l| && (forall r | c <= r < |l| :: l[r] <= l[pivot]) && forall r | c <= r < pivot :: l[r] < l[pivot]
  }

  /** The column of largest remaining length. */
  method LargestColumn(nPvt: array<real>, c: nat) returns (pivot: nat)
    requires c < nPvt.Length
    ensures FirstLargest(nPvt[..], c, pivot)
  {
    var MaxPivot := nPvt[c];
    pivot := c;
    for r := c + 1 to nPvt.Length
      invariant c <= pivot < nPvt.Length && MaxPivot == nPvt[pivot]
      invariant forall k | c <= k < r :: nPvt[k] <= MaxPivot
      invariant forall k | c <= k < pivot :: nPvt[k] < MaxPivot
    {
      if nPvt[r] > MaxPivot {
        pivot := r;
        MaxPivot := nPvt[r];
      }
    }
  }

  /** What is left of the length s without the part x. */
  ghost function Shortened(e: Lengths, s: real, x: real): real {
    if x * x < s * s then e.sqrt(s * s - x * x) else 0.0
  }

  /** The new length z of column r: the old one s without the element in row c, or
      measured anew below that row when nearly nothing is left. */
  ghost predicate LengthFollows(e: Lengths, n: nat, m: Matrix, c: nat, r: nat, s: real, z: real, tiny: real) {
    if s <= 0.0 then z == s
    else if Shortened(e, s, m(c, r)) / s < tiny then z >= 0.0 && z * z == Dot(n, From(m, r, c + 1), From(m, r, c + 1))
    else z == Shortened(e, s, m(c, r))
  }

  /** The lengths k after step c come from those before, l, as the matrix m is now. */
  ghost predicate LengthsFollow(e: Lengths, n: nat, m: Matrix, c: nat, l: seq<real>, k: seq<real>, tiny: real) {
    |l| == |k| == n && forall r | 0 <= r < n :: if r <= c then k[r] == l[r] else LengthFollows(e, n, m, c, r, l[r], k[r], tiny)
  }

  /** The value the code computes is what is left of the length. */
  lemma ShortenedIs(e: Lengths, s: real, x: real, q: real, t: real, y: real)
    requires Lawful(e) && s > 0.0 && q == x / s && t == q * q && y == if t < 1.0 then s * e.sqrt(1.0 - t) else 0.0
    ensures y == Shortened(e, s, x) && y >= 0.0
  {
    var p := Square(s);
    var r := Square(x);
    QuotientSquared(x, s, q, p, r, t);
    ShortenedOf(e, s, t, p, r, y);
  }

  lemma QuotientSquared(x: real, s: real, q: real, p: real, r: real, t: real)
    requires s > 0.0 && q == x / s && p == s * s && r == x * x && t == q * q
    ensures t * p == r
  {
    QuotientTimes(x, s);
    SameSquare(q * s, x);
    ProductSquared(q, s);
  }

  lemma SameSquare(x: real, y: real)
    requires x == y
    ensures x * x == y * y
  {
  }

  lemma ProductSquared(q: real, s: real)
    ensures (q * q) * (s * s) == (q * s) * (q * s)
  {
  }

  lemma SmallerFactor(t: real, p: real, r: real)
    requires p > 0.0 && t * p == r
    ensures t < 1.0 <==> r < p
  {
    assert (1.0 - t) * p == p - t * p;
    if t < 1.0 {
      var d := PositiveProduct(1.0 - t, p);
    } else if t > 1.0 {
      var d := PositiveProduct(t - 1.0, p);
    }
  }

  lemma ShortenedOf(e: Lengths, s: real, t: real, p: real, r: real, y: real)
    requires Lawful(e) && s > 0.0 && p == s * s && p > 0.0 && t * p == r && y == if t < 1.0 then s * e.sqrt(1.0 - t) else 0.0
    ensures y >= 0.0 && y == if r < p then e.sqrt(p - r) else 0.0
  {
    SmallerFactor(t, p, r);
    if t < 1.0 {
      assert RootLaw(e, 1.0 - t);
      ShortenedBy(s, e.sqrt(1.0 - t), t, p, r, y);
      RootOf(e, p - r, y);
    }
  }

  lemma ShortenedBy(s: real, w: real, t: real, p: real, r: real, y: real)
    requires s > 0.0 && w >= 0.0 && w * w == 1.0 - t && p == s * s && t * p == r && y == s * w
    ensures y >= 0.0 && y * y == p - r
  {
    SquareOfProduct(s, w, 1.0 - t);
    SquareLeft(s, w, t, p, r);
    SameSquare(y, s * w);
  }

  lemma RootOf(e: Lengths, v: real, y: real)
    requires Lawful(e) && y >= 0.0 && y * y == v
    ensures y == e.sqrt(v)
  {
    var p := Square(y);
    assert RootLaw(e, v);
    SameBase(y, e.sqrt(v));
  }

  lemma SquareLeft(s: real, w: real, t: real, p: real, r: real)
    requires p == s * s && t * p == r && (s * w) * (s * w) == s * s * (1.0 - t)
    ensures (s * w) * (s * w) == p - r
  {
    var f := 1.0 - t;
    assert p * f == p - t * p;
  }

  /** It is the other leg of a right triangle. */
  lemma ShortenedSquare(e: Lengths, s: real, x: real)
    requires Lawful(e) && x * x <= s * s
    ensures Shortened(e, s, x) >= 0.0 && Shortened(e, s, x) * Shortened(e, s, x) + x * x == s * s
  {
    var v := s * s - x * x;
    assert RootLaw(e, v);
    hide Lawful;
    if v > 0.0 { assert Shortened(e, s, x) == e.sqrt(v); }
  }

  /** If the length was that of the column from row c on, the new one is that of the
      column below row c. */
  lemma LengthBelow(e: Lengths, n: nat, m: Matrix, c: nat, r: nat, s: real, z: real, tiny: real)
    requires Lawful(e) && c < n && s >= 0.0 && LengthFollows(e, n, m, c, r, s, z, tiny)
    requires s * s == Dot(n, From(m, r, c), From(m, r, c))
    ensures z >= 0.0 && z * z == Dot(n, From(m, r, c + 1), From(m, r, c + 1))
  {
    TailSplits(n, m, r, c);
    SquaresBelow(n, From(m, r, c + 1));
    var x, d := m(c, r), Dot(n, From(m, r, c + 1), From(m, r, c + 1));
    assert s * s == x * x + d;
    hide Dot, From, Lawful;
    if s > 0.0 {
      ShortenedSquare(e, s, x);
    } else {
      var p := Square(x);
      assert p + d == 0.0;
    }
  }

  lemma {:induction false} SquaresBelow(n: nat, u: Vector)
    ensures Dot(n, u, u) >= 0.0
  {
    if n > 0 {
      SquaresBelow(n - 1, u);
      var p := Square(u(n - 1));
    }
  }

  lemma {:induction false} TailSplits(n: nat, m: Matrix, r: int, c: nat)
    requires c < n
    ensures Dot(n, From(m, r, c), From(m, r, c)) == m(c, r) * m(c, r) + Dot(n, From(m, r, c + 1), From(m, r, c + 1))
  {
    if c == n - 1 {
      SumZero(c, Times(From(m, r, c), From(m, r, c)));
      SumZero(n, Times(From(m, r, c + 1), From(m, r, c + 1)));
    } else {
      TailSplits(n - 1, m, r, c);
    }
  }

  /** The new length of one column. */
  method UpdateNorm(e: Lengths, A: array2<real>, c: nat, r: nat, s: real, tiny: real, ghost m: Matrix) returns (z: real)
    requires Lawful(e) && A.Length0 == A.Length1 && c < r < A.Length1 && Holds(A, m)
    ensures LengthFollows(e, A.Length0, m, c, r, s, z, tiny)
  {
    z := s;
    if s > 0.0 {
      var q := A[c, r] / s;
      var t := q * q;
      var y := if t < 1.0 then s * e.sqrt(1.0 - t) else 0.0;
      ShortenedIs(e, s, A[c, r], q, t, y);
      QuotientNotNegative(y, s);
      if Abs(y / s) < tiny {
        z := EuclidianC(e, A, r, c + 1, m);
      } else {
        z := y;
      }
    }
  }

  lemma QuotientNotNegative(y: real, s: real)
    requires y >= 0.0 && s > 0.0
    ensures y / s >= 0.0
  {
  }

  /** Updates the lengths of the columns right of c. */
  method UpdateNorms(e: Lengths, A: array2<real>, nPvt: array<real>, c: nat, tiny: real, ghost m: Matrix)
    requires Lawful(e) && A.Length0 == A.Length1 == nPvt.Length && c < A.Length1 && Holds(A, m)
    modifies nPvt
    ensures LengthsFollow(e, nPvt.Length, m, c, old(nPvt[..]), nPvt[..], tiny)
  {
    ghost var l := nPvt[..];
    for r := c + 1 to A.Length1
      invariant forall k | 0 <= k <= c || r <= k < nPvt.Length :: nPvt[k] == l[k]
      invariant forall k | c < k < r :: LengthFollows(e, nPvt.Length, m, c, k, l[k], nPvt[k], tiny)
    {
      hide Lawful, LengthFollows;
      nPvt[r] := UpdateNorm(e, A, c, r, nPvt[r], tiny, m);
    }
  }

  /** Exchanges the pivot column into place, in the matrix and in the tables. */
  method PivotColumn(A: array2<real>, nPvt: array<real>, cMap: array<int>, c: nat,
                     ghost m: Matrix, ghost a: Matrix, ghost t: Vector) returns (ghost w: Matrix, ghost q: nat)
    requires A.Length0 == A.Length1 == nPvt.Length == cMap.Length && c < A.Length1 && Holds(A, m)
    requires Reflected(A.Length0, m, a, t, cMap[..], c)
    modifies A, nPvt, cMap
    ensures Holds(A, w) && Reflected(A.Length0, w, a, t, cMap[..], c)
    ensures FirstLargest(old(nPvt[..]), c, q) && w == (if q == c then m else SwapColumns(m, c, q))
    ensures nPvt[..] == Swapped(old(nPvt[..]), c, q) && cMap[..] == Swapped(old(cMap[..]), c, q)
  {
    hide Reflected;
    var pivot := LargestColumn(nPvt, c);
    w, q := m, pivot;
    if pivot != c {
      ghost var p := cMap[..];
      ReflectedShape(A.Length0, m, a, t, p, c);
      ColumnsSwapped(A.Length0, m, a, t, p, c, pivot);
      ExchangeColumns(A, c, pivot, m);
      cMap[pivot], cMap[c] := cMap[c], cMap[pivot];
      nPvt[pivot], nPvt[c] := nPvt[c], nPvt[pivot];
      assert cMap[..] == Swapped(p, c, pivot);
      w := SwapColumns(m, c, pivot);
    }
  }

  lemma ReflectedShape(n: nat, m: Matrix, a: Matrix, t: Vector, p: seq<int>, c: nat)
    requires Reflected(n, m, a, t, p, c)
    ensures |p| == n && Permutation(p)
  {
  }

  /** Creates the reflection of column c and applies it. */
  method HouseholderLeft(e: Lengths, A: array2<real>, T: array<real>, c: nat, ghost m: Matrix, ghost a: Matrix, ghost p: seq<int>)
    returns (ghost w: Matrix)
    requires Lawful(e) && A.Length0 == A.Length1 == T.Length && c < A.Length1 && Holds(A, m)
    requires Reflected(A.Length0, m, a, VectorOf(T[..]), p, c)
    modifies A, T
    ensures Holds(A, w) && Reflected(A.Length0, w, a, VectorOf(T[..]), p, c + 1)
  {
    hide Reflected, Lawful;
    ghost var n, v := A.Length0, VectorOf(T[..]);
    var t;
    ghost var s, g, b, h;
    t, s, g, b, h := HouseholderCreateLeft(e, A, c, m);
    w := m;
    if t != 0.0 {
      w := Created(m, c, h, g);
      HouseholderApplyLeft(A, c, t, w);
      w := Applied(n, w, c, t);
    }
    T[c] := t;
    if t != 0.0 {
      ReflectionStep(n, m, a, v, p, c, s, g, b, h, VectorOf(T[..]));
    } else {
      EmptyStep(n, m, a, v, p, c, VectorOf(T[..]));
    }
  }

  /** The state before step c: the lengths, the order of the columns, and the place of
      the pivot the step chooses. */
  datatype Turn = Turn(l: seq<real>, p: seq<int>, q: nat)

  /** The lengths at the start are those of the columns below the first row. */
  ghost predicate FirstLengths(n: nat, a: Matrix, l: seq<real>) {
    |l| == n && forall c | 0 <= c < n :: l[c] >= 0.0 && l[c] * l[c] == Dot(n, From(a, c, 1), From(a, c, 1))
  }

  ghost predicate TurnFollows(e: Lengths, n: nat, tiny: real, s: Turn, u: Turn, m: Matrix, c: nat) {
    && c < n && |s.l| == |s.p| == n && FirstLargest(s.l, c, s.q)
    && u.p == Swapped(s.p, c, s.q) && LengthsFollow(e, n, m, c, Swapped(s.l, c, s.q), u.l, tiny)
  }

  ghost predicate TurnAt(e: Lengths, n: nat, tiny: real, run: seq<Turn>, ms: seq<Matrix>, c: nat)
    requires c + 1 < |run| && c + 1 < |ms|
  {
    TurnFollows(e, n, tiny, run[c], run[c + 1], ms[c + 1], c)
  }

  /** The choice of the pivots: always the first column of the largest length kept.
      ms holds the matrices after every step. */
  ghost predicate Pivoted(e: Lengths, n: nat, a: Matrix, tiny: real, run: seq<Turn>, ms: seq<Matrix>, c: nat) {
    && |run| == |ms| == c + 1 && c <= n
    && FirstLengths(n, a, run[0].l) && run[0].p == seq(n, i => i) && ms[0] == a
    && forall k | 0 <= k < c :: TurnAt(e, n, tiny, run, ms, k)
  }

  lemma PivotedMore(e: Lengths, n: nat, a: Matrix, tiny: real, run: seq<Turn>, ms: seq<Matrix>, c: nat, s: Turn, u: Turn, m: Matrix)
    requires Pivoted(e, n, a, tiny, run, ms, c) && c < n && s.l == run[c].l && s.p == run[c].p
    requires TurnFollows(e, n, tiny, s, u, m, c)
    ensures Pivoted(e, n, a, tiny, run[..c] + [s, u], ms + [m], c + 1)
  {
    hide TurnFollows, FirstLengths;
    var more, ns := run[..c] + [s, u], ms + [m];
    forall k | 0 <= k < c + 1
      ensures TurnAt(e, n, tiny, more, ns, k)
    {
      if k < c {
        assert TurnAt(e, n, tiny, run, ms, k);
        SameTurn(e, n, tiny, run[k], run[k + 1], more[k + 1], ms[k + 1], k);
      }
    }
  }

  lemma SameTurn(e: Lengths, n: nat, tiny: real, s: Turn, u: Turn, v: Turn, m: Matrix, c: nat)
    requires TurnFollows(e, n, tiny, s, u, m, c) && u.l == v.l && u.p == v.p
    ensures TurnFollows(e, n, tiny, s, v, m, c)
  {
  }

  /** The factorization: T and the packed matrix hold reflections that turn the
      matrix, with its columns in the order cMap, into the upper triangle. */
  method FactorizeQr(e: Lengths, A: array2<real>, T: array<real>, nPvt: array<real>, cMap: array<int>, tiny: real, ghost a: Matrix)
    returns (ghost m: Matrix, ghost run: seq<Turn>, ghost ms: seq<Matrix>)
    requires Lawful(e) && A.Length0 == A.Length1 == T.Length == nPvt.Length == cMap.Length && T != nPvt && Holds(A, a)
    modifies A, T, nPvt, cMap
    ensures Holds(A, m) && Reflected(A.Length0, m, a, VectorOf(T[..]), cMap[..], A.Length0)
    ensures Pivoted(e, A.Length0, a, tiny, run, ms, A.Length0) && run[A.Length0].p == cMap[..] && ms[A.Length0] == m
  {
    m := a;
    InitColumns(e, A, nPvt, cMap, a);
    ReflectedAtStart(A.Length0, a, VectorOf(T[..]), cMap[..]);
    run, ms := [Turn(nPvt[..], cMap[..], 0)], [a];
    assert cMap[..] == seq(A.Length0, i => i);
    for c := 0 to A.Length1
      invariant Holds(A, m) && Reflected(A.Length0, m, a, VectorOf(T[..]), cMap[..], c)
      invariant Pivoted(e, A.Length0, a, tiny, run, ms, c) && run[c].l == nPvt[..] && run[c].p == cMap[..] && ms[c] == m
    {
      hide Reflected, Lawful, Pivoted, Holds;
      ghost var s;
      m, s := TakeTurn(e, A, T, nPvt, cMap, c, tiny, m, a);
      PivotedMore(e, A.Length0, a, tiny, run, ms, c, s, Turn(nPvt[..], cMap[..], 0), m);
      run, ms := run[..c] + [s, Turn(nPvt[..], cMap[..], 0)], ms + [m];
    }
  }

  lemma {:induction false} FirstStays(e: Lengths, n: nat, a: Matrix, tiny: real, run: seq<Turn>, ms: seq<Matrix>, c: nat, k: nat)
    requires Pivoted(e, n, a, tiny, run, ms, c) && 0 < k <= c
    ensures n > 0 && FirstLargest(run[0].l, 0, run[0].q) && |run[k].p| == n && run[k].p[0] == run[0].q
  {
    var last := k - 1;
    assert TurnAt(e, n, tiny, run, ms, last);
    if last > 0 { FirstStays(e, n, a, tiny, run, ms, c, last); }
  }

  /** The first column taken is the first of the largest below the first row. */
  ghost predicate FirstPivot(n: nat, a: Matrix, q: int) {
    && 0 <= q < n
    && (forall j | 0 <= j < n :: Dot(n, From(a, j, 1), From(a, j, 1)) <= Dot(n, From(a, q, 1), From(a, q, 1)))
    && forall j | 0 <= j < q :: Dot(n, From(a, j, 1), From(a, j, 1)) < Dot(n, From(a, q, 1), From(a, q, 1))
  }

  lemma FirstPivotIs(e: Lengths, n: nat, a: Matrix, tiny: real, run: seq<Turn>, ms: seq<Matrix>)
    requires Pivoted(e, n, a, tiny, run, ms, n) && n > 0
    ensures |run[n].p| == n && FirstPivot(n, a, run[n].p[0])
  {
    FirstStays(e, n, a, tiny, run, ms, n, n);
    var l, q := run[0].l, run[0].q;
    hide Dot, From, TurnAt;
    forall j | 0 <= j < n
      ensures Dot(n, From(a, j, 1), From(a, j, 1)) <= Dot(n, From(a, q, 1), From(a, q, 1))
      ensures j < q ==> Dot(n, From(a, j, 1), From(a, j, 1)) < Dot(n, From(a, q, 1), From(a, q, 1))
    {
      if l[j] < l[q] { LargerSquare(l[j], l[q]); }
    }
  }

  /** One step: the pivot, its reflection, and the lengths left. */
  method TakeTurn(e: Lengths, A: array2<real>, T: array<real>, nPvt: array<real>, cMap: array<int>, c: nat, tiny: real, ghost m: Matrix, ghost a: Matrix)
    returns (ghost w: Matrix, ghost s: Turn)
    requires Lawful(e) && A.Length0 == A.Length1 == T.Length == nPvt.Length == cMap.Length && T != nPvt && c < A.Length0
    requires Holds(A, m) && Reflected(A.Length0, m, a, VectorOf(T[..]), cMap[..], c)
    modifies A, T, nPvt, cMap
    ensures Holds(A, w) && Reflected(A.Length0, w, a, VectorOf(T[..]), cMap[..], c + 1)
    ensures s.l == old(nPvt[..]) && s.p == old(cMap[..])
    ensures TurnFollows(e, A.Length0, tiny, s, Turn(nPvt[..], cMap[..], 0), w, c)
  {
    hide Reflected, Lawful, FirstLargest, LengthsFollow, Holds;
    ghost var l, p, q := nPvt[..], cMap[..], 0;
    w, q := PivotColumn(A, nPvt, cMap, c, m, a, VectorOf(T[..]));
    s := Turn(l, p, q);
    ghost var k, o := nPvt[..], cMap[..];
    w := HouseholderLeft(e, A, T, c, w, a, cMap[..]);
    assert nPvt[..] == k && cMap[..] == o;
    UpdateNorms(e, A, nPvt, c, tiny, w);
  }

  method InitColumns(e: Lengths, A: array2<real>, nPvt: array<real>, cMap: array<int>, ghost a: Matrix)
    requires Lawful(e) && A.Length0 == A.Length1 == nPvt.Length == cMap.Length && Holds(A, a)
    modifies nPvt, cMap
    ensures forall i | 0 <= i < cMap.Length :: cMap[i] == i
    ensures FirstLengths(nPvt.Length, a, nPvt[..])
  {
    for c := 0 to A.Length1
      invariant forall i | 0 <= i < c :: cMap[i] == i
      invariant forall i | 0 <= i < c :: nPvt[i] >= 0.0 && nPvt[i] * nPvt[i] == Dot(nPvt.Length, From(a, i, 1), From(a, i, 1))
    {
      hide Lawful, Dot;
      nPvt[c] := EuclidianC(e, A, c, 1, a);
      cMap[c] := c;
    }
  }

  // ------------------------------------------------------------ the substitution

  /** Applies the reflection stored in column c to the right hand side. */
  method ReflectRightHandSide(A: array2<real>, B: array<real>, c: nat, t: real, ghost m: Matrix)
    requires A.Length0 == A.Length1 == B.Length && c < A.Length1 && Holds(A, m)
    modifies B
    ensures Same(B.Length, VectorOf(B[..]), Reflect(B.Length, Stored(m, c), t, VectorOf(old(B[..]))))
  {
    ghost var n, b, u := B.Length, VectorOf(B[..]), Stored(m, c);
    hide Dot, Stored;
    var f := ProjectRightHandSide(A, B, c, m);
    f := f * t;
    for r := c to B.Length
      invariant forall k | 0 <= k < n :: B[k] == if c <= k < r then b(k) - f * u(k) else b(k)
    {
      SubtractFrom(A, B, r, c, f, m);
    }
  }

  method ProjectRightHandSide(A: array2<real>, B: array<real>, c: nat, ghost m: Matrix) returns (f: real)
    requires A.Length0 == A.Length1 == B.Length && c < A.Length1 && Holds(A, m)
    ensures f == Dot(B.Length, Stored(m, c), VectorOf(B[..]))
  {
    f := B[c];
    ghost var u, b := Stored(m, c), VectorOf(B[..]);
    SumZero(c, Times(u, b));
    assert Dot(c + 1, u, b) == f;
    for r := c + 1 to B.Length
      invariant f == Dot(r, u, b)
    {
      f := f + A[r, c] * B[r];
    }
  }

  method SubtractFrom(A: array2<real>, B: array<real>, r: nat, c: nat, f: real, ghost m: Matrix)
    requires A.Length0 == A.Length1 == B.Length && c <= r < B.Length && Holds(A, m)
    modifies B
    ensures forall k | 0 <= k < B.Length :: B[k] == if k == r then old(B[k]) - f * Stored(m, c)(k) else old(B[k])
  {
    var y := if r == c then f else f * A[r, c];
    B[r] := B[r] - y;
  }

  /** Forms the new right hand side. */
  method ReflectAllRightHandSide(A: array2<real>, B: array<real>, T: array<real>, ghost m: Matrix)
    requires A.Length0 == A.Length1 == B.Length == T.Length && B != T && Holds(A, m)
    modifies B
    ensures Same(B.Length, VectorOf(B[..]), ReflectAll(B.Length, m, VectorOf(T[..]), B.Length, VectorOf(old(B[..]))))
  {
    ghost var n, b, t := B.Length, VectorOf(B[..]), VectorOf(T[..]);
    for c := 0 to A.Length1
      invariant T[..] == old(T[..]) && Same(n, VectorOf(B[..]), ReflectAll(n, m, t, c, b))
    {
      hide Same;
      ghost var x := VectorOf(B[..]);
      if T[c] != 0.0 {
        ReflectRightHandSide(A, B, c, T[c], m);
        NextReflection(n, m, t, c, b, x, VectorOf(B[..]));
      } else {
        NoReflection(n, m, t, c, b, x);
      }
    }
  }

  lemma NextReflection(n: nat, m: Matrix, t: Vector, c: nat, b: Vector, x: Vector, y: Vector)
    requires Same(n, x, ReflectAll(n, m, t, c, b)) && Same(n, y, Reflect(n, Stored(m, c), t(c), x))
    ensures Same(n, y, ReflectAll(n, m, t, c + 1, b))
  {
    ReflectCongruence(n, Stored(m, c), Stored(m, c), t(c), x, ReflectAll(n, m, t, c, b));
  }

  lemma NoReflection(n: nat, m: Matrix, t: Vector, c: nat, b: Vector, x: Vector)
    requires Same(n, x, ReflectAll(n, m, t, c, b)) && t(c) == 0.0
    ensures Same(n, x, ReflectAll(n, m, t, c + 1, b))
  {
  }

  /** The diagonal of the upper triangle is clear of zero by eps. */
  ghost predicate ClearDiagonal(m: Matrix, n: nat, eps: real) {
    forall r | 0 <= r < n :: Abs(m(r, r)) > eps
  }

  /** Row r holds if its diagonal element is clear of zero; otherwise its unknown is 0. */
  ghost predicate RowDone(m: Matrix, n: nat, y: Vector, b: Vector, eps: real, r: nat) {
    if Abs(m(r, r)) > eps then UpperValue(Doolittle, m, n, y, r) == b(r) else y(r) == 0.0
  }

  ghost predicate RowsDone(m: Matrix, n: nat, y: Vector, b: Vector, eps: real, i: nat) {
    forall r | i <= r < n :: RowDone(m, n, y, b, eps, r)
  }

  lemma RowsNext(m: Matrix, n: nat, x: Vector, z: Vector, b: Vector, eps: real, r: nat, f: real)
    requires r < n && eps >= 0.0 && RowsDone(m, n, x, b, eps, r + 1)
    requires f == b(r) - Sum(n, Times(Row(Above(m), r), x))
    requires forall k | r < k < n :: z(k) == x(k)
    requires z(r) == if Abs(m(r, r)) > eps then f / m(r, r) else 0.0
    ensures RowsDone(m, n, z, b, eps, r)
  {
    forall k | r < k < n
      ensures RowDone(m, n, z, b, eps, k)
    {
      assert RowDone(m, n, x, b, eps, k);
      UpperValueCongruence(Doolittle, m, n, x, z, k);
    }
    AboveCongruence(m, n, x, z, r);
    if Abs(m(r, r)) > eps { QuotientTimes(f, m(r, r)); }
  }

  lemma ClearRows(m: Matrix, n: nat, y: Vector, b: Vector, eps: real)
    requires RowsDone(m, n, y, b, eps, 0) && ClearDiagonal(m, n, eps)
    ensures Solves(n, Upper(Doolittle, m), y, b)
  {
    forall k | 0 <= k < n
      ensures UpperValue(Doolittle, m, n, y, k) == b(k)
    {
      assert RowDone(m, n, y, b, eps, k);
    }
    UpperRows(Doolittle, m, n, y, b);
  }

  /** The rows whose diagonal element is not clear of zero hold as well. */
  ghost predicate SkippedHold(m: Matrix, n: nat, y: Vector, b: Vector, eps: real) {
    forall k | 0 <= k < n && Abs(m(k, k)) <= eps :: UpperValue(Doolittle, m, n, y, k) == b(k)
  }

  lemma SkippedDecide(m: Matrix, n: nat, y: Vector, b: Vector, eps: real)
    requires RowsDone(m, n, y, b, eps, 0)
    ensures Solves(n, Upper(Doolittle, m), y, b) <==> SkippedHold(m, n, y, b, eps)
  {
    forall k | 0 <= k < n
      ensures Apply(n, Upper(Doolittle, m), y)(k) == UpperValue(Doolittle, m, n, y, k)
      ensures Abs(m(k, k)) > eps ==> UpperValue(Doolittle, m, n, y, k) == b(k)
    {
      UpperRow(Doolittle, m, n, k, y);
      assert RowDone(m, n, y, b, eps, k);
    }
  }

  /** Backward substitution into the places the exchange table names; unknowns whose
      diagonal element is not clear of zero are set to 0, all other rows hold. */
  method SubstitutePermuted(A: array2<real>, B: array<real>, X: array<real>, cMap: array<int>, eps: real, ghost m: Matrix)
    requires A.Length0 == A.Length1 == B.Length == X.Length == cMap.Length && X != B && eps >= 0.0
    requires Holds(A, m) && Permutation(cMap[..])
    modifies X
    ensures RowsDone(m, X.Length, Ordered(VectorOf(X[..]), cMap[..]), VectorOf(B[..]), eps, 0)
    ensures ClearDiagonal(m, X.Length, eps) ==>
              Solves(X.Length, Upper(Doolittle, m), Ordered(VectorOf(X[..]), cMap[..]), VectorOf(B[..]))
  {
    ghost var n, b, p := X.Length, VectorOf(B[..]), cMap[..];
    var r := X.Length;
    while r > 0
      invariant 0 <= r <= n && B[..] == old(B[..]) && cMap[..] == p
      invariant RowsDone(m, n, Ordered(VectorOf(X[..]), p), b, eps, r)
    {
      hide RowsDone;
      r := r - 1;
      SubstituteRow(A, B, X, cMap, eps, r, m);
    }
    if ClearDiagonal(m, n, eps) { ClearRows(m, n, Ordered(VectorOf(X[..]), p), b, eps); }
  }

  method SubstituteRow(A: array2<real>, B: array<real>, X: array<real>, cMap: array<int>, eps: real, r: nat, ghost m: Matrix)
    requires A.Length0 == A.Length1 == B.Length == X.Length == cMap.Length && X != B && eps >= 0.0 && r < X.Length
    requires Holds(A, m) && Permutation(cMap[..])
    requires RowsDone(m, X.Length, Ordered(VectorOf(X[..]), cMap[..]), VectorOf(B[..]), eps, r + 1)
    modifies X
    ensures RowsDone(m, X.Length, Ordered(VectorOf(X[..]), cMap[..]), VectorOf(B[..]), eps, r)
  {
    hide RowsDone, Above;
    ghost var n, x, p := X.Length, X[..], cMap[..];
    var f := PermutedSum(A, B, X, cMap, r, m);
    assert A[r, r] == m(r, r) && 0 <= cMap[r] < X.Length;
    ghost var v := if Abs(m(r, r)) > eps then f / m(r, r) else 0.0;
    if Abs(A[r, r]) > eps {
      X[cMap[r]] := f / A[r, r];
    } else {
      X[cMap[r]] := 0.0;
    }
    PermutedStore(p, x, r, v);
    assert X[..] == x[p[r] := v];
    RowsNext(m, n, Ordered(VectorOf(x), p), Ordered(VectorOf(X[..]), p), VectorOf(B[..]), eps, r, f);
  }

  /** A store in place p[r] only changes unknown r of the ordered ones. */
  lemma PermutedStore(p: seq<int>, x: seq<real>, r: nat, v: real)
    requires Permutation(p) && |p| == |x| && r < |p|
    ensures forall k | 0 <= k < |p| ::
      Ordered(VectorOf(x[p[r] := v]), p)(k) == if k == r then v else Ordered(VectorOf(x), p)(k)
  {
    var z := x[p[r] := v];
    forall k | 0 <= k < |p|
      ensures Ordered(VectorOf(z), p)(k) == if k == r then v else Ordered(VectorOf(x), p)(k)
    {
      assert k < r ==> p[k] != p[r];
      assert k > r ==> p[r] != p[k];
      assert 0 <= p[k] < |p| && VectorOf(z)(p[k]) == z[p[k]] && VectorOf(x)(p[k]) == x[p[k]];
    }
  }

  method PermutedSum(A: array2<real>, B: array<real>, X: array<real>, cMap: array<int>, r: nat, ghost m: Matrix) returns (f: real)
    requires A.Length0 == A.Length1 == B.Length == X.Length == cMap.Length && r < X.Length && Holds(A, m) && Permutation(cMap[..])
    ensures f == B[r] - Sum(X.Length, Times(Row(Above(m), r), Ordered(VectorOf(X[..]), cMap[..])))
  {
    hide Sum, Above, Ordered, VectorOf, Permutation, Holds, Times;
    f := B[r];
    ghost var y := Ordered(VectorOf(X[..]), cMap[..]);
    NothingBelow(m, r, y);
    for c := r + 1 to A.Length1
      invariant f == B[r] - Sum(c, Times(Row(Above(m), r), y))
    {
      var v := PermutedTerm(A, X, cMap, r, c, m);
      f := f - v;
      TimesLast(c, Row(Above(m), r), y);
    }
  }

  lemma NothingBelow(m: Matrix, r: nat, y: Vector)
    ensures Sum(r + 1, Times(Row(Above(m), r), y)) == 0.0
  {
    SumZero(r + 1, Times(Row(Above(m), r), y));
  }

  method PermutedTerm(A: array2<real>, X: array<real>, cMap: array<int>, r: nat, c: nat, ghost m: Matrix) returns (v: real)
    requires A.Length0 == A.Length1 == X.Length == cMap.Length && r < c < X.Length && Holds(A, m) && Permutation(cMap[..])
    ensures v == Row(Above(m), r)(c) * Ordered(VectorOf(X[..]), cMap[..])(c)
  {
    assert 0 <= cMap[c] < X.Length;
    v := A[r, c] * X[cMap[c]];
  }

  /** Solves A x = B through the QR factorization, whatever pivots were chosen:
      x is a solution if the diagonal of the upper triangle is clear of zero, and
      that diagonal has a zero exactly if A is singular. */
  method SolveQr(e: Lengths, A: array2<real>, B: array<real>, X: array<real>, T: array<real>, nPvt: array<real>, cMap: array<int>,
                 tiny: real, eps: real) returns (ghost m: Matrix, ghost run: seq<Turn>, ghost ms: seq<Matrix>)
    requires Lawful(e) && eps >= 0.0
    requires A.Length0 == A.Length1 == B.Length == X.Length == T.Length == nPvt.Length == cMap.Length
    requires T != nPvt && B != T && B != nPvt && X != B && X != T
    modifies A, B, X, T, nPvt, cMap
    ensures Agree(X.Length, m, MatrixOf(A))
    ensures ClearDiagonal(m, X.Length, eps) ==> Solves(X.Length, old(MatrixOf(A)), VectorOf(X[..]), VectorOf(old(B[..])))
    ensures Permutation(cMap[..]) && (Solves(X.Length, old(MatrixOf(A)), VectorOf(X[..]), VectorOf(old(B[..]))) <==>
      SkippedHold(m, X.Length, Ordered(VectorOf(X[..]), cMap[..]), VectorOf(B[..]), eps))
    ensures Singular(X.Length, old(MatrixOf(A))) <==> exists r | 0 <= r < X.Length :: m(r, r) == 0.0
    ensures Pivoted(e, X.Length, old(MatrixOf(A)), tiny, run, ms, X.Length) && run[X.Length].p == cMap[..] && ms[X.Length] == m
    ensures X.Length > 0 ==> FirstPivot(X.Length, old(MatrixOf(A)), cMap[0])
  {
    ghost var n, a, b := X.Length, MatrixOf(A), VectorOf(B[..]);
    m, run, ms := FactorizeQr(e, A, T, nPvt, cMap, tiny, a);
    if n > 0 { FirstPivotIs(e, n, a, tiny, run, ms); }
    ghost var t, p := VectorOf(T[..]), cMap[..];
    hide Reflected, Lawful, Pivoted, FirstPivot, SkippedHold;
    DiagonalDecides(n, m, a, t, p);
    ReflectedShape(n, m, a, t, p, n);
    SubstituteQr(A, B, X, T, cMap, eps, m, a);
  }

  /** The substitution: the right hand side is reflected, the triangle solved. */
  method SubstituteQr(A: array2<real>, B: array<real>, X: array<real>, T: array<real>, cMap: array<int>, eps: real, ghost m: Matrix, ghost a: Matrix)
    requires A.Length0 == A.Length1 == B.Length == X.Length == T.Length == cMap.Length && eps >= 0.0
    requires B != T && X != B && X != T && Holds(A, m) && Reflected(X.Length, m, a, VectorOf(T[..]), cMap[..], X.Length)
    modifies B, X
    ensures ClearDiagonal(m, X.Length, eps) ==> Solves(X.Length, a, VectorOf(X[..]), VectorOf(old(B[..])))
    ensures Solves(X.Length, a, VectorOf(X[..]), VectorOf(old(B[..]))) <==>
      SkippedHold(m, X.Length, Ordered(VectorOf(X[..]), cMap[..]), VectorOf(B[..]), eps)
  {
    hide Reflected, RowsDone;
    ghost var n, b, t, p := X.Length, VectorOf(B[..]), VectorOf(T[..]), cMap[..];
    ReflectedShape(n, m, a, t, p, n);
    ReflectAllRightHandSide(A, B, T, m);
    ghost var v := VectorOf(B[..]);
    SubstitutePermuted(A, B, X, cMap, eps, m);
    SkippedDecide(m, n, Ordered(VectorOf(X[..]), p), v, eps);
    FactoredSolves(n, m, a, t, p, Ordered(VectorOf(X[..]), p), b, v);
    ArrangedSolves(n, a, p, VectorOf(X[..]), b);
  }
}
