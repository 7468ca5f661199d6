/** What each step of an LU factorization with implicit row pivoting keeps. */
module LuSteps {
  import opened Arithmetic
  import opened LinearAlgebra
  import opened LinearSystems
  import opened LuFactors
  import opened MatrixStore

  /** The virtual resistance: `tiny` added at (p[c], c) in every column c whose
      row number p[c] was reported. */
  ghost function Perturbed(a: Matrix, tiny: real, p: seq<int>, rows: seq<int>): Matrix {
    (i, j) => a(i, j) + (if 0 <= j < |p| && p[j] == i && i in rows then tiny else 0.0)
  }

  /** Element (r, c) of the exchanged and perturbed matrix. */
  ghost function Target(a: Matrix, d: Vector, p: seq<int>, r: nat, c: nat): real
    requires r < |p|
  {
    a(p[r], c) + (if r == c then d(c) else 0.0)
  }

  /** The reported rows are those whose column got the virtual resistance. */
  ghost predicate Reported(tiny: real, d: Vector, p: seq<int>, rows: seq<int>, c: nat) {
    && c <= |p|
    && (forall j | 0 <= j < |p| :: d(j) == if p[j] in rows then tiny else 0.0)
    && (forall i | i in rows :: i in p[..c])
  }

  /** The first c columns are factored, the others still hold the exchanged
      rows of a. */
  ghost predicate Progress(s: Scheme, n: nat, m: Matrix, a: Matrix, d: Vector, p: seq<int>, c: nat) {
    && |p| == n && Permutation(p) && c <= n
    && (forall r, j | 0 <= r < n && 0 <= j < c :: Entry(s, m, r, j) == Target(a, d, p, r, j))
    && (forall r, j | 0 <= r < n && c <= j < n :: m(r, j) == a(p[r], j))
    && (forall j | 0 <= j < c :: m(j, j) != 0.0)
  }

  lemma EntryOffColumn(s: Scheme, m: Matrix, w: Matrix, c: nat, r: nat, j: nat)
    requires j < c && forall i, t | t != c :: m(i, t) == w(i, t)
    ensures Entry(s, m, r, j) == Entry(s, w, r, j)
  {
    InnerCongruence(m, w, r, r, j, if r < j then r else j);
  }

  /** Column c is reduced down to row r, the rows below still hold those of a. */
  ghost predicate Reduced(s: Scheme, n: nat, w: Matrix, a: Matrix, p: seq<int>, c: nat, r: nat) {
    && |p| == n && c < n && r <= n
    && (forall i | 0 <= i < r && i < c :: Entry(s, w, i, c) == a(p[i], c))
    && (forall i | c <= i < r :: Inner(w, i, c, c) + w(i, c) == a(p[i], c))
    && (forall i | r <= i < n :: w(i, c) == a(p[i], c))
  }

  lemma UpperStep(s: Scheme, n: nat, w: Matrix, a: Matrix, p: seq<int>, c: nat, r: nat, v: real)
    requires Reduced(s, n, w, a, p, c, r) && r < c
    requires (if s == Crout then w(r, r) * v else v) == w(r, c) - Inner(w, r, c, r)
    ensures Reduced(s, n, Upd(w, r, c, v), a, p, c, r + 1)
  {
    var u := Upd(w, r, c, v);
    hide Entry, Inner;
    forall i | 0 <= i <= r
      ensures Entry(s, u, i, c) == a(p[i], c)
    {
      UpperEntry(s, w, u, i, r, c, v);
    }
  }

  lemma UpperEntry(s: Scheme, w: Matrix, u: Matrix, i: nat, r: nat, c: nat, v: real)
    requires i <= r < c && u == Upd(w, r, c, v)
    ensures Entry(s, u, i, c) == if i < r then Entry(s, w, i, c) else Inner(w, i, c, i) + (if s == Crout then w(i, i) * v else v)
  {
    InnerCongruence(w, u, i, i, c, i);
    hide Inner;
  }

  lemma LowerStep(s: Scheme, n: nat, w: Matrix, a: Matrix, p: seq<int>, c: nat, r: nat, v: real)
    requires Reduced(s, n, w, a, p, c, r) && c <= r < n
    requires v == w(r, c) - Inner(w, r, c, c)
    ensures Reduced(s, n, Upd(w, r, c, v), a, p, c, r + 1)
  {
    var u := Upd(w, r, c, v);
    hide Entry, Inner;
    forall i | 0 <= i <= r
      ensures if i < c then Entry(s, u, i, c) == a(p[i], c) else Inner(u, i, c, c) + u(i, c) == a(p[i], c)
    {
      LowerEntry(s, w, u, i, r, c, v);
    }
  }

  lemma LowerEntry(s: Scheme, w: Matrix, u: Matrix, i: nat, r: nat, c: nat, v: real)
    requires c <= r && u == Upd(w, r, c, v)
    ensures i < c ==> Entry(s, u, i, c) == Entry(s, w, i, c)
    ensures Inner(u, i, c, c) == Inner(w, i, c, c)
  {
    InnerCongruence(w, u, i, i, c, c);
    if i < c { InnerCongruence(w, u, i, i, c, i); }
    hide Inner;
  }

  lemma ScaledSize(q: real, f: real)
    requires q > 0.0
    ensures q * Abs(f) >= 0.0 && (q * Abs(f) == 0.0 <==> f == 0.0)
  {
  }

  /** Among the rows c..r-1, row `pivot` has the largest size, MaxPivot. */
  ghost predicate Largest(g: Vector, c: nat, pivot: nat, MaxPivot: real, r: nat) {
    && c <= pivot && MaxPivot >= 0.0
    && (MaxPivot == 0.0 ==> pivot == c)
    && (c < r ==> pivot < r && MaxPivot == g(pivot))
    && (r <= c ==> MaxPivot == 0.0)
    && (forall i | c <= i < r :: g(i) <= MaxPivot)
  }

  /** The sizes of the elements of column c, scaled row by row. */
  ghost function Sizes(q: seq<real>, w: Matrix, c: nat): Vector {
    i => if 0 <= i < |q| then q[i] * Abs(w(i, c)) else 0.0
  }

  lemma LargestStep(g: Vector, h: Vector, c: nat, pivot: nat, MaxPivot: real, r: nat)
    requires Largest(g, c, pivot, MaxPivot, r) && c <= r && h(r) >= 0.0
    requires forall i | c <= i < r :: g(i) == h(i)
    ensures h(r) > MaxPivot ==> Largest(h, c, r, h(r), r + 1)
    ensures h(r) <= MaxPivot ==> Largest(h, c, pivot, MaxPivot, r + 1)
  {
  }

  lemma SizeStep(q: seq<real>, w: Matrix, c: nat, pivot: nat, MaxPivot: real, r: nat, f: real, d: real)
    requires Largest(Sizes(q, w, c), c, pivot, MaxPivot, r) && c <= r < |q|
    requires q[r] > 0.0 && d == q[r] * Abs(f)
    ensures Largest(Sizes(q, Upd(w, r, c, f), c), c,
              if d > MaxPivot then r else pivot, if d > MaxPivot then d else MaxPivot, r + 1)
  {
    var h := Sizes(q, Upd(w, r, c, f), c);
    ScaledSize(q[r], f);
    assert h(r) == d;
    LargestStep(Sizes(q, w, c), h, c, pivot, MaxPivot, r);
  }

  // ----------------------------------------------- finishing a pivot column

  /** Columns before c are factored, column c is reduced but not yet divided by
      its pivot, the others still hold the exchanged rows of a. */
  ghost predicate Pivoting(s: Scheme, n: nat, w: Matrix, a: Matrix, d: Vector, p: seq<int>, c: nat) {
    && |p| == n && Permutation(p) && c < n
    && (forall r, j | 0 <= r < n && 0 <= j < c :: Entry(s, w, r, j) == Target(a, d, p, r, j))
    && (forall r | 0 <= r < c :: Entry(s, w, r, c) == a(p[r], c))
    && (forall r | c <= r < n :: Inner(w, r, c, c) + w(r, c) == Target(a, d, p, r, c))
    && (forall r, j | 0 <= r < n && c < j < n :: w(r, j) == a(p[r], j))
    && (forall j | 0 <= j < c :: w(j, j) != 0.0)
  }

  lemma ReducedIsPivoting(s: Scheme, n: nat, m: Matrix, w: Matrix, a: Matrix, d: Vector, p: seq<int>, c: nat)
    requires Progress(s, n, m, a, d, p, c) && Reduced(s, n, w, a, p, c, n) && d(c) == 0.0
    requires forall i, t | t != c :: w(i, t) == m(i, t)
    ensures Pivoting(s, n, w, a, d, p, c)
  {
    forall r, j | 0 <= r < n && 0 <= j < c
      ensures Entry(s, w, r, j) == Entry(s, m, r, j)
    {
      EntryOffColumn(s, m, w, c, r, j);
    }
  }

  lemma AboveDiagonal(s: Scheme, w: Matrix, r: nat, c: nat)
    requires r < c
    ensures var f := Times(Row(Lower(s, w), r), Column(w, c)); Sum(c, f) == Sum(r + 1, f)
  {
    var f := Times(Row(Lower(s, w), r), Column(w, c));
    forall k | r < k < c
      ensures f(k) == 0.0
    {
      TimesZero(Row(Lower(s, w), r), Column(w, c), k);
    }
    SumTruncate(r + 1, c, f);
  }

  lemma ReducedColumn(s: Scheme, w: Matrix, r: nat, c: nat)
    ensures Sum(c, Times(Row(Lower(s, w), r), Column(w, c)))
         == if r < c then Entry(s, w, r, c) else Inner(w, r, c, c)
  {
    var f := Times(Row(Lower(s, w), r), Column(w, c));
    if r < c {
      AboveDiagonal(s, w, r, c);
      assert Sum(r + 1, f) == Sum(r, f) + f(r);
      SumCongruence(r, f, Times(Row(w, r), Column(w, c)));
      hide Sum;
      assert f(r) == Lower(s, w)(r, r) * w(r, c);
    } else {
      SumCongruence(c, f, Times(Row(w, r), Column(w, c)));
      hide Sum;
    }
  }

  /** The first column without a pivot shows that the matrix is singular. */
  lemma NoPivot(s: Scheme, n: nat, w: Matrix, a: Matrix, d: Vector, p: seq<int>, c: nat)
    requires Pivoting(s, n, w, a, d, p, c) && (forall j | 0 <= j < n :: d(j) == 0.0)
    requires forall r | c <= r < n :: w(r, c) == 0.0
    ensures Singular(n, a)
  {
    forall r | 0 <= r < n
      ensures a(p[r], c) == Sum(c, Times(Row(Lower(s, w), r), Column(w, c)))
    {
      ReducedColumn(s, w, r, c);
    }
    DependentColumn(s, n, w, p, a, c);
  }

  /** The virtual resistance takes the place of the missing pivot. */
  lemma VirtualResistance(s: Scheme, n: nat, w: Matrix, a: Matrix, d: Vector, p: seq<int>, c: nat, tiny: real)
    requires Pivoting(s, n, w, a, d, p, c) && d(c) == 0.0 && w(c, c) == 0.0
    ensures Pivoting(s, n, Upd(w, c, c, tiny), a, k => if k == c then tiny else d(k), p, c)
  {
    var u, e := Upd(w, c, c, tiny), k => if k == c then tiny else d(k);
    forall r, j | 0 <= r < n && 0 <= j < c
      ensures Entry(s, u, r, j) == Target(a, e, p, r, j)
    {
      EntryOffColumn(s, w, u, c, r, j);
    }
    forall r | 0 <= r < c
      ensures Entry(s, u, r, c) == a(p[r], c)
    {
      InnerCongruence(w, u, r, r, c, r);
    }
    forall r | c <= r < n
      ensures Inner(u, r, c, c) == Inner(w, r, c, c)
    {
      InnerCongruence(w, u, r, r, c, c);
    }
  }

  lemma ReportRow(tiny: real, d: Vector, p: seq<int>, rows: seq<int>, c: nat)
    requires c < |p| && Permutation(p) && Reported(tiny, d, p, rows, c)
    ensures Reported(tiny, k => if k == c then tiny else d(k), p, rows + [p[c]], c + 1)
  {
    assert p[..c + 1] == p[..c] + [p[c]];
  }

  lemma NotReported(tiny: real, d: Vector, p: seq<int>, rows: seq<int>, c: nat, i: nat)
    requires Reported(tiny, d, p, rows, c) && Permutation(p) && c <= i < |p|
    ensures p[i] !in rows && d(i) == 0.0
  {
    assert forall k | 0 <= k < c :: p[..c][k] == p[k] != p[i];
  }

  lemma ReportKept(tiny: real, d: Vector, p: seq<int>, rows: seq<int>, c: nat, q: nat)
    requires Reported(tiny, d, p, rows, c) && Permutation(p) && c <= q < |p|
    ensures Reported(tiny, d, Swapped(p, c, q), rows, c + 1)
  {
    var t := Swapped(p, c, q);
    assert t[..c + 1] == p[..c] + [t[c]];
    NotReported(tiny, d, p, rows, c, c);
    NotReported(tiny, d, p, rows, c, q);
  }

  /** The row that an exchange of c and q moves to position r. */
  ghost function Origin(c: nat, q: nat, r: nat): nat {
    if r == c then q else if r == q then c else r
  }

  /** Exchanging the rows c and q keeps everything factored so far. */
  lemma Exchange(s: Scheme, n: nat, w: Matrix, a: Matrix, d: Vector, p: seq<int>, c: nat, q: nat)
    requires Pivoting(s, n, w, a, d, p, c) && c <= q < n && (c < q ==> d(c) == 0.0)
    ensures Pivoting(s, n, SwapRows(w, c, q), a, d, Swapped(p, c, q), c)
  {
    SwapKeepsPermutation(p, c, q);
    var u, t := SwapRows(w, c, q), Swapped(p, c, q);
    forall r, j | 0 <= r < n && 0 <= j < c
      ensures Entry(s, u, r, j) == Target(a, d, t, r, j)
    {
      ExchangedEntry(s, w, c, q, r, j);
    }
    forall r | 0 <= r < c
      ensures Entry(s, u, r, c) == a(t[r], c)
    {
      ExchangedEntry(s, w, c, q, r, c);
    }
    forall r | c <= r < n
      ensures Inner(u, r, c, c) == Inner(w, Origin(c, q, r), c, c)
    {
      InnerCongruence(u, w, r, Origin(c, q, r), c, c);
    }
  }

  lemma ExchangedEntry(s: Scheme, w: Matrix, c: nat, q: nat, r: nat, j: nat)
    requires c <= q && j <= c && (j == c ==> r < c)
    ensures Entry(s, SwapRows(w, c, q), r, j) == Entry(s, w, Origin(c, q, r), j)
  {
    InnerCongruence(SwapRows(w, c, q), w, r, Origin(c, q, r), j, if r < j then r else j);
  }

  /** Column c after Doolittle's division by the pivot; Crout's is left alone. */
  ghost function Divided(s: Scheme, w: Matrix, c: nat): Matrix {
    (i, j) => if s == Doolittle && j == c && c < i then w(i, j) * (1.0 / (if w(c, c) != 0.0 then w(c, c) else 1.0)) else w(i, j)
  }

  lemma ColumnDone(s: Scheme, n: nat, w: Matrix, a: Matrix, d: Vector, p: seq<int>, c: nat)
    requires Pivoting(s, n, w, a, d, p, c) && w(c, c) != 0.0
    ensures Progress(s, n, Divided(s, w, c), a, d, p, c + 1)
  {
    var u := Divided(s, w, c);
    forall r, j | 0 <= r < n && 0 <= j < c
      ensures Entry(s, u, r, j) == Target(a, d, p, r, j)
    {
      EntryOffColumn(s, w, u, c, r, j);
    }
    forall r | 0 <= r < n
      ensures Entry(s, u, r, c) == Target(a, d, p, r, c)
    {
      DividedEntry(s, n, w, a, d, p, c, r);
    }
  }

  lemma DividedEntry(s: Scheme, n: nat, w: Matrix, a: Matrix, d: Vector, p: seq<int>, c: nat, r: nat)
    requires Pivoting(s, n, w, a, d, p, c) && w(c, c) != 0.0 && r < n
    ensures Entry(s, Divided(s, w, c), r, c) == Target(a, d, p, r, c)
  {
    InnerCongruence(Divided(s, w, c), w, r, r, c, if r < c then r else c);
    if c < r && s == Doolittle { ReciprocalTimes(w(r, c), w(c, c)); }
  }

  /** Nothing reported so far means no perturbation; something reported means a
      singular matrix. */
  lemma FinishedFactors(s: Scheme, n: nat, m: Matrix, a: Matrix, d: Vector, tiny: real, p: seq<int>, rows: seq<int>)
    requires Progress(s, n, m, a, d, p, n) && Reported(tiny, d, p, rows, n)
    ensures Factors(s, n, m, p, Perturbed(a, tiny, p, rows))
    ensures rows == [] ==> !Singular(n, a)
  {
    if rows == [] {
      assert Factors(s, n, m, p, a);
      FactoredIsRegular(s, n, m, p, a);
    }
  }

  lemma FactorsCongruence(s: Scheme, n: nat, m: Matrix, w: Matrix, p: seq<int>, a: Matrix)
    requires Factors(s, n, m, p, a) && Agree(n, m, w)
    ensures Factors(s, n, w, p, a)
  {
    forall r, c | 0 <= r < n && 0 <= c < n
      ensures Entry(s, w, r, c) == Entry(s, m, r, c)
    {
      InnerCongruence(m, w, r, r, c, if r < c then r else c);
    }
  }

  // ------------------------------------------------- implicit row scaling

  function Max(x: real, y: real): real { if y > x then y else x }

  /** The largest magnitude in the first k elements of row i. */
  ghost function RowMax(a: Matrix, i: int, k: nat): real {
    if k == 0 then 0.0 else Max(RowMax(a, i, k - 1), Abs(a(i, k - 1)))
  }

  ghost function RowScale(a: Matrix, n: nat, tiny: real, i: int): real
    requires tiny > 0.0
  {
    1.0 / if RowMax(a, i, n) > 0.0 then RowMax(a, i, n) else tiny
  }

  /** The scaled sizes of the elements of the lower factor. */
  ghost function LowerSizes(s: Scheme, q: seq<real>, m: Matrix): Matrix {
    (i, j) => if 0 <= i < |q| then q[i] * Abs(Lower(s, m)(i, j)) else 0.0
  }

  /** In each of the first c columns the pivot is the largest element on or below
      the diagonal, relative to its row's scale. */
  ghost predicate Dominant(s: Scheme, q: seq<real>, m: Matrix, c: nat) {
    forall r, j | 0 <= j < c && j <= r < |q| :: LowerSizes(s, q, m)(r, j) <= LowerSizes(s, q, m)(j, j)
  }

  lemma LowerSizeAt(s: Scheme, q: seq<real>, m: Matrix, r: nat, j: nat)
    requires j <= r < |q|
    ensures LowerSizes(s, q, m)(r, j) == q[r] * Abs(if r == j && s == Doolittle then 1.0 else m(r, j))
  {
    assert Lower(s, m)(r, j) == if r == j && s == Doolittle then 1.0 else m(r, j);
  }

  lemma DominantOffColumn(s: Scheme, q: seq<real>, m: Matrix, w: Matrix, c: nat)
    requires Dominant(s, q, m, c) && forall i, t | t != c :: m(i, t) == w(i, t)
    ensures Dominant(s, q, w, c)
  {
    forall r, j | 0 <= j < c && j <= r < |q|
      ensures LowerSizes(s, q, w)(r, j) <= LowerSizes(s, q, w)(j, j)
    {
      assert m(r, j) == w(r, j) && m(j, j) == w(j, j);
      LowerSizeAt(s, q, m, r, j);
      LowerSizeAt(s, q, w, r, j);
      LowerSizeAt(s, q, m, j, j);
      LowerSizeAt(s, q, w, j, j);
      assert LowerSizes(s, q, m)(r, j) <= LowerSizes(s, q, m)(j, j);
    }
  }

  lemma DominantCongruence(s: Scheme, n: nat, q: seq<real>, m: Matrix, w: Matrix)
    requires Dominant(s, q, m, n) && Agree(n, m, w) && |q| == n
    ensures Dominant(s, q, w, n)
  {
    forall r, j | 0 <= j < n && j <= r < n
      ensures LowerSizes(s, q, w)(r, j) <= LowerSizes(s, q, w)(j, j)
    {
      LowerSizeAt(s, q, m, r, j);
      LowerSizeAt(s, q, w, r, j);
      LowerSizeAt(s, q, m, j, j);
      LowerSizeAt(s, q, w, j, j);
      assert LowerSizes(s, q, m)(r, j) <= LowerSizes(s, q, m)(j, j);
    }
  }

  lemma DominantExchange(s: Scheme, q: seq<real>, m: Matrix, c: nat, k: nat)
    requires Dominant(s, q, m, c) && c <= k < |q|
    ensures Dominant(s, Swapped(q, c, k), SwapRows(m, c, k), c)
  {
    var t, u := Swapped(q, c, k), SwapRows(m, c, k);
    forall r, j | 0 <= j < c && j <= r < |q|
      ensures LowerSizes(s, t, u)(r, j) <= LowerSizes(s, t, u)(j, j)
    {
      hide LowerSizes, Lower;
      LowerSizeAt(s, t, u, r, j);
      LowerSizeAt(s, q, m, Origin(c, k, r), j);
      LowerSizeAt(s, t, u, j, j);
      LowerSizeAt(s, q, m, j, j);
      assert LowerSizes(s, q, m)(Origin(c, k, r), j) <= LowerSizes(s, q, m)(j, j);
    }
  }

  lemma DominantColumn(s: Scheme, q: seq<real>, w: Matrix, c: nat)
    requires Dominant(s, q, w, c) && c < |q| && w(c, c) != 0.0 && q[c] > 0.0
    requires forall r | c <= r < |q| :: Sizes(q, w, c)(r) <= Sizes(q, w, c)(c)
    ensures Dominant(s, q, Divided(s, w, c), c + 1)
  {
    var u := Divided(s, w, c);
    DominantOffColumn(s, q, w, u, c);
    forall r | c <= r < |q|
      ensures LowerSizes(s, q, u)(r, c) <= LowerSizes(s, q, u)(c, c)
    {
      assert Sizes(q, w, c)(r) <= Sizes(q, w, c)(c);
      if c < r { DividedColumnSize(s, q, w, c, r); }
    }
  }

  lemma DividedColumnSize(s: Scheme, q: seq<real>, w: Matrix, c: nat, r: nat)
    requires c < r < |q| && w(c, c) != 0.0 && q[r] * Abs(w(r, c)) <= q[c] * Abs(w(c, c))
    ensures LowerSizes(s, q, Divided(s, w, c))(r, c) <= LowerSizes(s, q, Divided(s, w, c))(c, c)
  {
    var u := Divided(s, w, c);
    LowerSizeAt(s, q, u, r, c);
    LowerSizeAt(s, q, u, c, c);
    if s == Doolittle { DividedSize(q[r], w(r, c), q[c], w(c, c)); }
  }

  lemma DividedSize(q: real, x: real, t: real, y: real)
    requires y != 0.0 && q * Abs(x) <= t * Abs(y)
    ensures q * Abs(x * (1.0 / y)) <= t
  {
    var z := 1.0 / y;
    assert Abs(x * z) == Abs(x) * Abs(z);
    assert Abs(y) * Abs(z) == 1.0;
    assert q * Abs(x) * Abs(z) <= t * Abs(y) * Abs(z);
    assert t * Abs(y) * Abs(z) == t * (Abs(y) * Abs(z));
  }

  /** Everything the outer loop of a factorization knows about the matrix a
      before column c: the packed matrix m, the perturbation d of the diagonal,
      the exchange table p, the row scales q and the rows reported. */
  datatype Stage = Stage(m: Matrix, d: Vector, p: seq<int>, q: seq<real>, rows: seq<int>)

  ghost predicate Reached(s: Scheme, n: nat, a: Matrix, tiny: real, g: Stage, c: nat)
    requires tiny > 0.0
  {
    && Progress(s, n, g.m, a, g.d, g.p, c)
    && Reported(tiny, g.d, g.p, g.rows, c) && (g.rows != [] ==> Singular(n, a))
    && |g.q| == n && (forall r | 0 <= r < n :: g.q[r] == RowScale(a, n, tiny, g.p[r]))
    && Dominant(s, g.q, g.m, c)
  }

  lemma RowScalePositive(a: Matrix, n: nat, tiny: real, i: int)
    requires tiny > 0.0
    ensures RowScale(a, n, tiny, i) > 0.0
  {
  }

  lemma {:induction false} RowMaxIs(a: Matrix, i: int, n: nat)
    ensures RowMax(a, i, n) >= 0.0 && forall c | 0 <= c < n :: Abs(a(i, c)) <= RowMax(a, i, n)
  {
    if n > 0 { RowMaxIs(a, i, n - 1); }
  }

  lemma {:induction false} RowMaxReached(a: Matrix, i: int, n: nat) returns (c: nat)
    requires n > 0
    ensures c < n && Abs(a(i, c)) == RowMax(a, i, n)
  {
    c := n - 1;
    RowMaxIs(a, i, n - 1);
    if n > 1 && RowMax(a, i, n - 1) > Abs(a(i, n - 1)) { c := RowMaxReached(a, i, n - 1); }
  }

  /** Scaled by its factor, no element of a row is larger than one in magnitude. */
  lemma RowScaleIs(a: Matrix, n: nat, tiny: real, i: int, c: nat)
    requires tiny > 0.0 && c < n
    ensures RowScale(a, n, tiny, i) * Abs(a(i, c)) <= 1.0
  {
    RowMaxIs(a, i, n);
    var x := RowMax(a, i, n);
    if x > 0.0 { ScaledBelow(Abs(a(i, c)), x, RowScale(a, n, tiny, i)); }
  }

  /** And one of a row that is not zero is of magnitude one. */
  lemma RowScaleReached(a: Matrix, n: nat, tiny: real, i: int, d: nat) returns (c: nat)
    requires tiny > 0.0 && d < n && a(i, d) != 0.0
    ensures c < n && RowScale(a, n, tiny, i) * Abs(a(i, c)) == 1.0
  {
    RowMaxIs(a, i, n);
    c := RowMaxReached(a, i, n);
    assert Abs(a(i, d)) > 0.0;
    ScaledBelow(Abs(a(i, c)), RowMax(a, i, n), RowScale(a, n, tiny, i));
  }

  /** A row of zeros is scaled by the reciprocal of the small constant. */
  lemma {:induction false} ZeroRowScale(a: Matrix, n: nat, tiny: real, i: int)
    requires tiny > 0.0 && forall c | 0 <= c < n :: a(i, c) == 0.0
    ensures RowScale(a, n, tiny, i) * tiny == 1.0
  {
    if n > 0 {
      var c := RowMaxReached(a, i, n);
      assert a(i, c) == 0.0;
    }
    ScaledBelow(tiny, tiny, 1.0 / tiny);
  }

  lemma ScaledBelow(y: real, x: real, g: real)
    requires 0.0 <= y <= x && x > 0.0 && g == 1.0 / x
    ensures g * y <= 1.0 && (y == x ==> g * y == 1.0)
  {
    QuotientTimes(1.0, x);
    assert g > 0.0 && g * (x - y) >= 0.0;
  }

  lemma ReachedAtStart(s: Scheme, n: nat, a: Matrix, tiny: real, p: seq<int>, q: seq<real>)
    requires tiny > 0.0 && |p| == n == |q|
    requires forall r | 0 <= r < n :: p[r] == r && q[r] == RowScale(a, n, tiny, r)
    ensures Reached(s, n, a, tiny, Stage(a, k => 0.0, p, q, []), 0)
  {
    forall i | 0 <= i < n ensures i in p { assert p[i] == i; }
  }

  /** Column c when it has no pivot: all its elements from row c on are zero. */
  ghost predicate Empty(n: nat, w: Matrix, c: nat) {
    c < n && forall r | c <= r < n :: w(r, c) == 0.0
  }

  lemma EmptyColumn(n: nat, a: Matrix, tiny: real, p: seq<int>, q: seq<real>, w: Matrix, c: nat)
    requires tiny > 0.0 && c < n == |p| == |q| && Largest(Sizes(q, w, c), c, c, 0.0, n)
    requires forall r | 0 <= r < n :: q[r] == RowScale(a, n, tiny, p[r])
    ensures Empty(n, w, c)
  {
    forall r | c <= r < n
      ensures w(r, c) == 0.0
    {
      assert Sizes(q, w, c)(r) <= 0.0;
      RowScalePositive(a, n, tiny, p[r]);
      ScaledSize(q[r], w(r, c));
    }
  }

  lemma FactorsWithoutPivot(s: Scheme, n: nat, a: Matrix, tiny: real, g: Stage, w: Matrix, c: nat)
    requires tiny > 0.0 && Empty(n, w, c) && Reached(s, n, a, tiny, g, c)
    requires Reduced(s, n, w, a, g.p, c, n) && forall i, t | t != c :: w(i, t) == g.m(i, t)
    ensures Progress(s, n, Divided(s, Upd(w, c, c, tiny), c), a, k => if k == c then tiny else g.d(k), g.p, c + 1)
    ensures Singular(n, a)
  {
    NotReported(tiny, g.d, g.p, g.rows, c, c);
    ReducedIsPivoting(s, n, g.m, w, a, g.d, g.p, c);
    if g.rows == [] { NoPivot(s, n, w, a, g.d, g.p, c); }
    VirtualResistance(s, n, w, a, g.d, g.p, c, tiny);
    ColumnDone(s, n, Upd(w, c, c, tiny), a, k => if k == c then tiny else g.d(k), g.p, c);
  }

  lemma DominantWithoutPivot(s: Scheme, n: nat, a: Matrix, tiny: real, g: Stage, w: Matrix, c: nat)
    requires tiny > 0.0 && Empty(n, w, c) && Reached(s, n, a, tiny, g, c)
    requires forall i, t | t != c :: w(i, t) == g.m(i, t)
    ensures Dominant(s, g.q, Divided(s, Upd(w, c, c, tiny), c), c + 1)
  {
    var u := Upd(w, c, c, tiny);
    DominantOffColumn(s, g.q, g.m, u, c);
    RowScalePositive(a, n, tiny, g.p[c]);
    ScaledSize(g.q[c], tiny);
    forall r | c <= r < n
      ensures Sizes(g.q, u, c)(r) <= Sizes(g.q, u, c)(c)
    {
      assert r > c ==> u(r, c) == 0.0;
    }
    DominantColumn(s, g.q, u, c);
  }

  /** Column c without a pivot, after the virtual resistance was inserted. */
  lemma ReachedWithoutPivot(s: Scheme, n: nat, a: Matrix, tiny: real, g: Stage, w: Matrix, c: nat)
    requires tiny > 0.0 && c < n && Reached(s, n, a, tiny, g, c)
    requires Reduced(s, n, w, a, g.p, c, n) && forall i, t | t != c :: w(i, t) == g.m(i, t)
    requires Largest(Sizes(g.q, w, c), c, c, 0.0, n)
    ensures Reached(s, n, a, tiny, Stage(Divided(s, Upd(w, c, c, tiny), c), k => if k == c then tiny else g.d(k),
                                         g.p, g.q, g.rows + [g.p[c]]), c + 1)
  {
    EmptyColumn(n, a, tiny, g.p, g.q, w, c);
    FactorsWithoutPivot(s, n, a, tiny, g, w, c);
    DominantWithoutPivot(s, n, a, tiny, g, w, c);
    ReportRow(tiny, g.d, g.p, g.rows, c);
  }

  lemma FactorsWithPivot(s: Scheme, n: nat, a: Matrix, tiny: real, g: Stage, w: Matrix, c: nat, pivot: nat)
    requires tiny > 0.0 && c <= pivot < n && Reached(s, n, a, tiny, g, c) && w(pivot, c) != 0.0
    requires Reduced(s, n, w, a, g.p, c, n) && forall i, t | t != c :: w(i, t) == g.m(i, t)
    ensures Progress(s, n, Divided(s, SwapRows(w, c, pivot), c), a, g.d, Swapped(g.p, c, pivot), c + 1)
  {
    NotReported(tiny, g.d, g.p, g.rows, c, c);
    ReducedIsPivoting(s, n, g.m, w, a, g.d, g.p, c);
    Exchange(s, n, w, a, g.d, g.p, c, pivot);
    ColumnDone(s, n, SwapRows(w, c, pivot), a, g.d, Swapped(g.p, c, pivot), c);
  }

  lemma DominantWithPivot(s: Scheme, n: nat, q: seq<real>, m: Matrix, w: Matrix, c: nat, pivot: nat, MaxPivot: real)
    requires |q| == n && c <= pivot < n && w(pivot, c) != 0.0 && q[pivot] > 0.0 && Dominant(s, q, m, c)
    requires forall i, t | t != c :: w(i, t) == m(i, t)
    requires Largest(Sizes(q, w, c), c, pivot, MaxPivot, n)
    ensures Dominant(s, Swapped(q, c, pivot), Divided(s, SwapRows(w, c, pivot), c), c + 1)
  {
    var u, t := SwapRows(w, c, pivot), Swapped(q, c, pivot);
    DominantOffColumn(s, q, m, w, c);
    DominantExchange(s, q, w, c, pivot);
    forall r | c <= r < n
      ensures Sizes(t, u, c)(r) <= Sizes(t, u, c)(c)
    {
      assert Sizes(t, u, c)(r) == Sizes(q, w, c)(Origin(c, pivot, r));
      assert Sizes(t, u, c)(c) == Sizes(q, w, c)(pivot);
    }
    DominantColumn(s, t, u, c);
  }

  /** Column c after its pivot was exchanged into row c. */
  lemma ReachedWithPivot(s: Scheme, n: nat, a: Matrix, tiny: real, g: Stage, w: Matrix, c: nat, pivot: nat, MaxPivot: real)
    requires tiny > 0.0 && c < n && Reached(s, n, a, tiny, g, c)
    requires Reduced(s, n, w, a, g.p, c, n) && forall i, t | t != c :: w(i, t) == g.m(i, t)
    requires Largest(Sizes(g.q, w, c), c, pivot, MaxPivot, n) && MaxPivot > 0.0
    ensures w(pivot, c) != 0.0
    ensures Reached(s, n, a, tiny, Stage(Divided(s, SwapRows(w, c, pivot), c), g.d,
                                         Swapped(g.p, c, pivot), Swapped(g.q, c, pivot), g.rows), c + 1)
  {
    PivotNonZero(a, n, tiny, g.p, g.q, w, c, pivot, MaxPivot);
    FactorsWithPivot(s, n, a, tiny, g, w, c, pivot);
    DominantWithPivot(s, n, g.q, g.m, w, c, pivot, MaxPivot);
    ReportKept(tiny, g.d, g.p, g.rows, c, pivot);
  }

  lemma PivotNonZero(a: Matrix, n: nat, tiny: real, p: seq<int>, q: seq<real>, w: Matrix, c: nat, pivot: nat, MaxPivot: real)
    requires tiny > 0.0 && c < n == |p| == |q| && Largest(Sizes(q, w, c), c, pivot, MaxPivot, n) && MaxPivot > 0.0
    requires forall r | 0 <= r < n :: q[r] == RowScale(a, n, tiny, p[r])
    ensures w(pivot, c) != 0.0 && q[pivot] > 0.0
  {
    RowScalePositive(a, n, tiny, p[pivot]);
    ScaledSize(q[pivot], w(pivot, c));
  }
}
