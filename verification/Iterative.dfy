/** Jacobi and Gauss-Seidel iteration with LU decomposition to fall back on. */
module Iterative {
  import opened Arithmetic
  import opened Elimination
  import opened EqnSys
  import opened LinearAlgebra
  import opened LinearSystems
  import opened LuFactors
  import opened LuSteps
  import opened MatrixStore
  import opened RowOperations
  import opened StaleFactors

  // --------------------------------------------------------- row exchanges

  /** u and v are a and b with their rows in another order. */
  ghost predicate Reordered(n: nat, a: Matrix, b: Vector, u: Matrix, v: Vector) {
    exists p: seq<int> :: |p| == n && Permutation(p) && InOrder(n, a, b, u, v, p)
  }

  ghost predicate InOrder(n: nat, a: Matrix, b: Vector, u: Matrix, v: Vector, p: seq<int>)
    requires |p| == n
  {
    && (forall i, j | 0 <= i < n && 0 <= j < n :: u(i, j) == a(p[i], j))
    && (forall i | 0 <= i < n :: v(i) == b(p[i]))
  }

  lemma ReorderedSelf(n: nat, a: Matrix, b: Vector)
    ensures Reordered(n, a, b, a, b)
  {
    var p := seq(n, i => i);
    forall i | 0 <= i < n
      ensures i in p
    {
      assert p[i] == i;
    }
    assert Permutation(p) && InOrder(n, a, b, a, b, p);
  }

  lemma ReorderedSwap(n: nat, a: Matrix, b: Vector, u: Matrix, v: Vector, r: nat, q: nat, z: Vector)
    requires Reordered(n, a, b, u, v) && r < n && q < n && Same(n, SwapEntries(v, r, q), z)
    ensures Reordered(n, a, b, SwapRows(u, r, q), z)
  {
    var p: seq<int> :| |p| == n && Permutation(p) && InOrder(n, a, b, u, v, p);
    var s := Swapped(p, r, q);
    SwapKeepsPermutation(p, r, q);
    forall i, j | 0 <= i < n && 0 <= j < n
      ensures SwapRows(u, r, q)(i, j) == a(s[i], j)
    {
      assert s[i] == p[if i == r then q else if i == q then r else i];
    }
    forall i | 0 <= i < n
      ensures z(i) == b(s[i])
    {
      assert SwapEntries(v, r, q)(i) == z(i);
    }
    assert InOrder(n, a, b, SwapRows(u, r, q), z, s);
  }

  /** Both the solutions and the rows stay, the rows in another order. */
  ghost predicate Preserved(n: nat, a: Matrix, b: Vector, u: Matrix, v: Vector) {
    Kept(n, a, b, u, v) && Reordered(n, a, b, u, v)
  }

  method Swap(A: array2<real>, B: array<real>, i: nat, q: nat, ghost m: Matrix, ghost a: Matrix, ghost b: Vector) returns (ghost w: Matrix)
    requires A.Length0 == A.Length1 == B.Length && i < B.Length && q < B.Length && Holds(A, m)
    requires Preserved(B.Length, a, b, m, VectorOf(B[..]))
    modifies A, B
    ensures w == SwapRows(m, i, q)
    ensures Holds(A, w) && Preserved(B.Length, a, b, w, VectorOf(B[..]))
  {
    hide Kept, Reordered;
    ghost var v := VectorOf(B[..]);
    SwapKept(B.Length, a, b, m, v, i, q);
    ExchangeRows(A, B, i, q, m);
    w := SwapRows(m, i, q);
    AgreeingKept(B.Length, a, b, w, SwapEntries(v, i, q), w, VectorOf(B[..]));
    ReorderedSwap(B.Length, a, b, m, v, i, q, VectorOf(B[..]));
  }

  ghost predicate OneIn(m: Matrix, r: int, i: int) { Abs(m(r, i)) == 1.0 }

  /** Looks for elements of magnitude one in column i: none, a single one at r1, or
      the first two at r1 and r2. */
  method CountPairs(A: array2<real>, i: nat, r10: nat, r20: nat, ghost m: Matrix) returns (pairs: nat, r1: nat, r2: nat)
    requires A.Length0 == A.Length1 && i < A.Length1 && Holds(A, m)
    ensures pairs <= 2
    ensures pairs == 0 ==> r1 == r10 && forall r | 0 <= r < A.Length0 :: !OneIn(m, r, i)
    ensures pairs >= 1 ==> r1 < A.Length0 && OneIn(m, r1, i) && forall r | 0 <= r < r1 :: !OneIn(m, r, i)
    ensures pairs == 1 ==> forall r | 0 <= r < A.Length0 && r != r1 :: !OneIn(m, r, i)
    ensures pairs == 2 ==> r1 < r2 < A.Length0 && OneIn(m, r2, i) && forall r | r1 < r < r2 :: !OneIn(m, r, i)
  {
    pairs, r1, r2 := 0, r10, r20;
    var r := 0;
    while r < A.Length0
      invariant r <= A.Length0 && pairs == 0 && r1 == r10
      invariant forall k | 0 <= k < r :: !OneIn(m, k, i)
    {
      if Abs(A[r, i]) == 1.0 {
        r1 := r;
        pairs := pairs + 1;
        r := r + 1;
        while r < A.Length0
          invariant r1 < r <= A.Length0 && pairs == 1
          invariant forall k | r1 < k < r :: !OneIn(m, k, i)
        {
          if Abs(A[r, i]) == 1.0 {
            r2 := r;
            pairs := pairs + 1;
            return;
          }
          r := r + 1;
        }
        return;
      }
      r := r + 1;
    }
  }

  ghost predicate NonZeroDiagonal(n: nat, m: Matrix) {
    forall k | 0 <= k < n :: m(k, k) != 0.0
  }

  /** Row r has the only element of magnitude one in column i. */
  ghost predicate OnlyOne(n: nat, m: Matrix, i: nat, r: nat) {
    r < n && OneIn(m, r, i) && forall k | 0 <= k < n && k != r :: !OneIn(m, k, i)
  }

  lemma OnlyOnce(n: nat, m: Matrix, i: nat, r: nat, q: nat)
    requires OnlyOne(n, m, i, r) && OnlyOne(n, m, i, q)
    ensures r == q
  {
  }

  /** Step i of a pass: a row with the only element of magnitude one is exchanged into
      a zero on the diagonal. */
  ghost predicate LoneStep(n: nat, m: Matrix, i: nat, w: Matrix) {
    if m(i, i) == 0.0 && exists r: nat :: OnlyOne(n, m, i, r) then exists r: nat :: OnlyOne(n, m, i, r) && w == SwapRows(m, i, r)
    else w == m
  }

  ghost predicate LonePass(n: nat, begin: nat, ms: seq<Matrix>) {
    |ms| > 0 && forall k | 0 <= k && k + 1 < |ms| :: LoneStepAt(n, begin, ms, k)
  }

  ghost predicate LoneStepAt(n: nat, begin: nat, ms: seq<Matrix>, k: nat)
    requires k + 1 < |ms|
  {
    LoneStep(n, ms[k], begin + k, ms[k + 1])
  }

  lemma LonePassMore(n: nat, begin: nat, ms: seq<Matrix>, w: Matrix)
    requires LonePass(n, begin, ms) && LoneStep(n, ms[|ms| - 1], begin + |ms| - 1, w)
    ensures LonePass(n, begin, ms + [w])
  {
    hide LoneStep;
    forall k | 0 <= k && k + 1 < |ms + [w]|
      ensures LoneStepAt(n, begin, ms + [w], k)
    {
      if k + 1 < |ms| { assert LoneStepAt(n, begin, ms, k); }
    }
  }

  /** The zero is gone after the step. */
  lemma LoneStepMends(n: nat, m: Matrix, i: nat, r: nat, w: Matrix)
    requires LoneStep(n, m, i, w) && m(i, i) == 0.0 && OnlyOne(n, m, i, r)
    ensures Abs(w(i, i)) == 1.0 && w == SwapRows(m, i, r)
  {
    var q: nat :| OnlyOne(n, m, i, q) && w == SwapRows(m, i, q);
    OnlyOnce(n, m, i, q, r);
  }

  /** A zero at i can be mended by row r: it has the only element of magnitude one in
      the column, its own diagonal element is not zero, and neither is its mirror image. */
  ghost predicate MendedBy(n: nat, m: Matrix, i: nat, r: nat) {
    OnlyOne(n, m, i, r) && m(r, r) != 0.0 && m(i, r) != 0.0
  }

  /** Every zero on the diagonal has a row of its own to mend it, as in a matrix of
      modified nodal analysis with lone pairs. */
  ghost predicate Mendable(n: nat, m: Matrix) {
    && (forall i: nat | i < n && m(i, i) == 0.0 :: exists r: nat :: MendedBy(n, m, i, r))
    && forall i: nat, j: nat, r: nat | i < j < n && m(i, i) == 0.0 && m(j, j) == 0.0 && MendedBy(n, m, i, r) :: !MendedBy(n, m, j, r)
  }

  lemma StillMended(n: nat, m: Matrix, i: nat, r: nat, j: nat, q: nat)
    requires i < n && r < n && j < n && j != i && m(i, i) == 0.0 && m(j, j) == 0.0
    requires MendedBy(n, m, i, r) && MendedBy(n, m, j, q) && q != r && q != i
    ensures MendedBy(n, SwapRows(m, i, r), j, q)
  {
    var w := SwapRows(m, i, r);
    assert j != r && w(j, q) == m(j, q) && w(q, q) == m(q, q);
    forall k | 0 <= k < n && k != q
      ensures !OneIn(w, k, j)
    {
      var l := if k == i then r else if k == r then i else k;
      assert !OneIn(m, l, j) && w(k, j) == m(l, j);
    }
    assert OneIn(m, q, j) && w(q, j) == m(q, j);
  }

  lemma BackMended(n: nat, m: Matrix, i: nat, r: nat, j: nat, q: nat)
    requires i < n && j < n && m(i, i) == 0.0 && Mendable(n, m) && MendedBy(n, m, i, r)
    requires j != i && j != r && m(j, j) == 0.0 && MendedBy(n, SwapRows(m, i, r), j, q)
    ensures MendedBy(n, m, j, q)
  {
    var o: nat :| MendedBy(n, m, j, o);
    OwnRow(n, m, i, r, j, o);
    StillMended(n, m, i, r, j, o);
    OnlyOnce(n, SwapRows(m, i, r), j, o, q);
  }

  lemma OthersOwn(n: nat, m: Matrix, i: nat, r: nat, j: nat, k: nat, q: nat)
    requires i < n && j < k < n && m(i, i) == 0.0 && Mendable(n, m) && MendedBy(n, m, i, r)
    requires SwapRows(m, i, r)(j, j) == 0.0 && SwapRows(m, i, r)(k, k) == 0.0 && MendedBy(n, SwapRows(m, i, r), j, q)
    ensures !MendedBy(n, SwapRows(m, i, r), k, q)
  {
    if MendedBy(n, SwapRows(m, i, r), k, q) {
      BackMended(n, m, i, r, j, q);
      BackMended(n, m, i, r, k, q);
    }
  }

  /** Exchanging the row in keeps the others to be mended. */
  lemma MendKeeps(n: nat, m: Matrix, i: nat, r: nat)
    requires i < n && m(i, i) == 0.0 && Mendable(n, m) && OnlyOne(n, m, i, r)
    ensures MendedBy(n, m, i, r) && Mendable(n, SwapRows(m, i, r))
    ensures var w := SwapRows(m, i, r); w(i, i) != 0.0 && w(r, r) != 0.0 && forall k | k != i && k != r :: w(k, k) == m(k, k)
  {
    var w := SwapRows(m, i, r);
    var o: nat :| MendedBy(n, m, i, o);
    OnlyOnce(n, m, i, o, r);
    forall j: nat | j < n && w(j, j) == 0.0
      ensures exists q: nat :: MendedBy(n, w, j, q)
    {
      assert j != i && j != r && m(j, j) == 0.0;
      var q: nat :| MendedBy(n, m, j, q);
      OwnRow(n, m, i, r, j, q);
      StillMended(n, m, i, r, j, q);
    }
    forall j: nat, k: nat, q: nat | j < k < n && w(j, j) == 0.0 && w(k, k) == 0.0 && MendedBy(n, w, j, q)
      ensures !MendedBy(n, w, k, q)
    {
      OthersOwn(n, m, i, r, j, k, q);
    }
  }

  lemma OwnRow(n: nat, m: Matrix, i: nat, r: nat, j: nat, q: nat)
    requires Mendable(n, m) && i < n && j < n && i != j && m(i, i) == 0.0 && m(j, j) == 0.0
    requires MendedBy(n, m, i, r) && MendedBy(n, m, j, q)
    ensures q != r && q != i
  {
  }

  /** Moves lone pairs into zero diagonal elements, and one of several pairs when no
      lone ones are left; gives up after the given number of rounds. */
  method EnsureDiagonalMna(A: array2<real>, B: array<real>, rounds: nat, ghost a: Matrix, ghost b: Vector, ghost m: Matrix) returns (ghost w: Matrix)
    requires A.Length0 == A.Length1 == B.Length && Holds(A, m) && Preserved(B.Length, a, b, m, VectorOf(B[..]))
    modifies A, B
    ensures Holds(A, w) && Preserved(B.Length, a, b, w, VectorOf(B[..]))
    ensures NonZeroDiagonal(B.Length, m) ==> w == m && B[..] == old(B[..])
    ensures Mendable(B.Length, m) && rounds > 0 ==> NonZeroDiagonal(B.Length, w)
  {
    w := m;
    hide Preserved, Mendable, LonePass;
    var begin: nat, pivot1: nat, pivot2: nat, left, restart := 0, 0, 0, rounds, true;
    while restart && left > 0
      invariant begin <= A.Length0 && (begin < A.Length0 ==> pivot1 < A.Length0)
      invariant Holds(A, w) && Preserved(B.Length, a, b, w, VectorOf(B[..]))
      invariant NonZeroDiagonal(B.Length, m) ==> w == m && B[..] == old(B[..])
      invariant left == rounds ==> restart && begin == 0 && w == m
      invariant Mendable(B.Length, m) && left < rounds ==> !restart && NonZeroDiagonal(B.Length, w)
      decreases left
    {
      var exchanged;
      ghost var ms;
      restart, exchanged, begin, pivot1, pivot2, w, ms := LonePairs(A, B, begin, pivot1, pivot2, a, b, w);
      if restart {
        pivot1, pivot2, w := SeveralPairs(A, B, begin, exchanged, pivot1, pivot2, a, b, w);
      }
      left := left - 1;
    }
  }

  /** The first zero on the diagonal from begin on. */
  ghost predicate FirstZero(n: nat, m: Matrix, begin: nat, i: nat) {
    begin <= i < n && m(i, i) == 0.0 && forall k | begin <= k < i :: m(k, k) != 0.0
  }

  /** Row r has the first element of magnitude one in column i. */
  ghost predicate FirstOne(n: nat, m: Matrix, i: nat, r: nat) {
    r < n && OneIn(m, r, i) && forall k | 0 <= k < r :: !OneIn(m, k, i)
  }

  ghost predicate SeveralStep(n: nat, m: Matrix, begin: nat, w: Matrix) {
    forall i: nat, r: nat | FirstZero(n, m, begin, i) && FirstOne(n, m, i, r) :: w == SwapRows(m, i, r)
  }

  lemma SeveralIs(n: nat, m: Matrix, begin: nat, i: nat, pairs: nat, r: nat)
    requires begin <= i < n && m(i, i) == 0.0 && forall k | begin <= k < i :: m(k, k) != 0.0
    requires if pairs == 0 then forall k | 0 <= k < n :: !OneIn(m, k, i) else FirstOne(n, m, i, r)
    ensures SeveralStep(n, m, begin, SwapRows(m, i, r))
  {
    forall j: nat, q: nat | FirstZero(n, m, begin, j) && FirstOne(n, m, j, q)
      ensures SwapRows(m, i, r) == SwapRows(m, j, q)
    {
      assert j == i;
      assert pairs != 0 && q == r;
    }
  }

  /** With several pairs the first of the rows is exchanged into the first zero; this is
      done only if no lone pair was. */
  method SeveralPairs(A: array2<real>, B: array<real>, begin: nat, done: bool, r10: nat, r20: nat, ghost a: Matrix, ghost b: Vector, ghost m: Matrix)
    returns (pivot1: nat, pivot2: nat, ghost w: Matrix)
    requires A.Length0 == A.Length1 == B.Length && Holds(A, m) && Preserved(B.Length, a, b, m, VectorOf(B[..]))
    requires begin < A.Length0 && r10 < A.Length0
    modifies A, B
    ensures Holds(A, w) && Preserved(B.Length, a, b, w, VectorOf(B[..])) && pivot1 < A.Length0
    ensures done || (forall i | begin <= i < B.Length :: m(i, i) != 0.0) ==> w == m
    ensures !done ==> SeveralStep(B.Length, m, begin, w)
  {
    hide Preserved;
    var exchanged := done;
    pivot1, pivot2, w := r10, r20, m;
    var i := begin;
    while !exchanged && i < A.Length0
      invariant begin <= i <= A.Length0 && pivot1 < A.Length0
      invariant Holds(A, w) && Preserved(B.Length, a, b, w, VectorOf(B[..]))
      invariant (done ==> exchanged) && (done || !exchanged ==> w == m)
      invariant !done && exchanged ==> SeveralStep(B.Length, m, begin, w)
      invariant !done && exchanged ==> exists k :: begin <= k < i && m(k, k) == 0.0
      invariant !exchanged ==> forall k | begin <= k < i :: m(k, k) != 0.0
      decreases A.Length0 - i, if exchanged then 0 else 1
    {
      if A[i, i] == 0.0 {
        var pairs;
        pairs, pivot1, pivot2 := CountPairs(A, i, pivot1, pivot2, w);
        SeveralIs(B.Length, m, begin, i, pairs, pivot1);
        w := Swap(A, B, i, pivot1, w, a, b);
        exchanged := true;
      }
      i := i + 1;
    }
  }

  /** A pass for lone pairs; it asks for a restart if a zero has several, at the first
      such place. */
  method LonePairs(A: array2<real>, B: array<real>, begin0: nat, r10: nat, r20: nat, ghost a: Matrix, ghost b: Vector, ghost m: Matrix)
    returns (restart: bool, exchanged: bool, begin: nat, pivot1: nat, pivot2: nat, ghost w: Matrix, ghost ms: seq<Matrix>)
    requires A.Length0 == A.Length1 == B.Length && Holds(A, m) && Preserved(B.Length, a, b, m, VectorOf(B[..]))
    requires begin0 <= A.Length0 && (begin0 < A.Length0 ==> r10 < A.Length0)
    modifies A, B
    ensures Holds(A, w) && Preserved(B.Length, a, b, w, VectorOf(B[..]))
    ensures begin <= A.Length0 && (begin < A.Length0 ==> pivot1 < A.Length0)
    ensures restart ==> begin < A.Length0
    ensures LonePass(B.Length, begin0, ms) && |ms| == B.Length - begin0 + 1 && ms[0] == m && ms[|ms| - 1] == w
    ensures NonZeroDiagonal(B.Length, m) ==> !restart && w == m && B[..] == old(B[..])
    ensures Mendable(B.Length, m) && begin0 == 0 ==> !restart && NonZeroDiagonal(B.Length, w)
  {
    hide Preserved, Mendable, LonePass, LoneStep;
    restart, exchanged, begin, pivot1, pivot2, w := false, false, begin0, r10, r20, m;
    ms := [m];
    PassStarts(B.Length, begin0, m);
    for i := begin0 to A.Length0
      invariant Holds(A, w) && Preserved(B.Length, a, b, w, VectorOf(B[..]))
      invariant begin <= A.Length0 && (begin < A.Length0 ==> pivot1 < A.Length0) && (restart ==> begin < A.Length0)
      invariant begin0 < A.Length0 ==> pivot1 < A.Length0
      invariant NonZeroDiagonal(B.Length, m) ==> !restart && w == m && B[..] == old(B[..])
      invariant LonePass(B.Length, begin0, ms) && |ms| == i - begin0 + 1 && ms[0] == m && ms[|ms| - 1] == w
      invariant Mendable(B.Length, m) && begin0 == 0 ==> !restart && Mendable(B.Length, w) && forall k | 0 <= k < i :: w(k, k) != 0.0
    {
      if A[i, i] == 0.0 {
        var pairs;
        pairs, pivot1, pivot2 := CountPairs(A, i, pivot1, pivot2, w);
        PairsDecide(B.Length, w, i, pairs, pivot1, pivot2);
        if pairs == 1 {
          if Mendable(B.Length, w) { MendKeeps(B.Length, w, i, pivot1); }
          w := Swap(A, B, i, pivot1, w, a, b);
          exchanged := true;
        } else if pairs > 1 && !restart {
          restart := true;
          begin := i;
        }
      } else {
        NoStep(B.Length, w, i);
      }
      LonePassMore(B.Length, begin0, ms, w);
      ms := ms + [w];
    }
  }

  lemma PassStarts(n: nat, begin: nat, m: Matrix)
    ensures LonePass(n, begin, [m])
  {
  }

  lemma NoStep(n: nat, m: Matrix, i: nat)
    requires m(i, i) != 0.0
    ensures LoneStep(n, m, i, m)
  {
  }

  /** What the number of pairs at a zero says. */
  lemma PairsDecide(n: nat, m: Matrix, i: nat, pairs: nat, r: nat, q: nat)
    requires i < n && m(i, i) == 0.0 && pairs <= 2
    requires pairs == 0 ==> forall k | 0 <= k < n :: !OneIn(m, k, i)
    requires pairs >= 1 ==> r < n && OneIn(m, r, i)
    requires pairs == 1 ==> forall k | 0 <= k < n && k != r :: !OneIn(m, k, i)
    requires pairs == 2 ==> r < q < n && OneIn(m, q, i)
    ensures if pairs == 1 then OnlyOne(n, m, i, r) && LoneStep(n, m, i, SwapRows(m, i, r)) else LoneStep(n, m, i, m)
    ensures Mendable(n, m) ==> pairs == 1
  {
    if pairs == 1 {
      assert OnlyOne(n, m, i, r);
    } else {
      forall k: nat
        ensures !OnlyOne(n, m, i, k)
      {
        if pairs == 2 && k == r { assert OneIn(m, q, i); }
      }
      assert forall k: nat :: !MendedBy(n, m, i, k);
    }
  }

  /** Exchanging rows i and r leaves no smaller element on the diagonal at r. */
  ghost predicate Candidate(m: Matrix, i: nat, r: nat) { Abs(m(i, r)) >= Abs(m(r, r)) }

  /** The first candidate with the largest element of column i, or i if all are zero. */
  method RaisingRow(A: array2<real>, i: nat, ghost m: Matrix) returns (pivot: nat)
    requires A.Length0 == A.Length1 && i < A.Length0 && Holds(A, m)
    ensures Raising(A.Length0, m, i, pivot)
  {
    var MaxPivot := 0.0;
    pivot := i;
    for r := 0 to A.Length0
      invariant pivot < A.Length0 && Candidate(m, i, pivot) && MaxPivot >= 0.0
      invariant if MaxPivot == 0.0 then pivot == i else MaxPivot == Abs(m(pivot, i))
      invariant forall k | 0 <= k < r && Candidate(m, i, k) :: Abs(m(k, i)) <= MaxPivot
      invariant MaxPivot > 0.0 ==> forall k | 0 <= k < pivot && Candidate(m, i, k) :: Abs(m(k, i)) < MaxPivot
    {
      if Abs(A[r, i]) > MaxPivot && Abs(A[i, r]) >= Abs(A[r, r]) {
        MaxPivot := Abs(A[r, i]);
        pivot := r;
      }
    }
  }

  /** The row the preconditioner takes for column i. */
  ghost predicate Raising(n: nat, m: Matrix, i: nat, q: nat) {
    && q < n && Candidate(m, i, q)
    && (forall r | 0 <= r < n && Candidate(m, i, r) :: Abs(m(r, i)) <= Abs(m(q, i)))
    && (q != i ==> forall r | 0 <= r < q && Candidate(m, i, r) :: Abs(m(r, i)) < Abs(m(q, i)))
    && (m(q, i) == 0.0 ==> q == i)
  }

  /** Step i exchanges this row into place. */
  ghost predicate RaiseStep(n: nat, ms: seq<Matrix>, i: nat)
    requires i + 1 < |ms|
  {
    exists q: nat :: Raising(n, ms[i], i, q) && ms[i + 1] == if q == i then ms[i] else SwapRows(ms[i], i, q)
  }

  ghost predicate RaisePass(n: nat, ms: seq<Matrix>) {
    |ms| > 0 && forall i | 0 <= i && i + 1 < |ms| :: RaiseStep(n, ms, i)
  }

  lemma RaisePassMore(n: nat, ms: seq<Matrix>, q: nat, w: Matrix)
    requires RaisePass(n, ms) && Raising(n, ms[|ms| - 1], |ms| - 1, q)
    requires w == if q == |ms| - 1 then ms[|ms| - 1] else SwapRows(ms[|ms| - 1], |ms| - 1, q)
    ensures RaisePass(n, ms + [w])
  {
    hide Raising;
    var more := ms + [w];
    forall i | 0 <= i && i + 1 < |more|
      ensures RaiseStep(n, more, i)
    {
      if i + 1 < |ms| {
        assert RaiseStep(n, ms, i);
        var p: nat :| Raising(n, ms[i], i, p) && ms[i + 1] == if p == i then ms[i] else SwapRows(ms[i], i, p);
        assert more[i] == ms[i] && more[i + 1] == ms[i + 1] && Raising(n, more[i], i, p);
      } else {
        assert i == |ms| - 1 && more[i] == ms[i] && more[i + 1] == w;
        assert Raising(n, more[i], i, q);
      }
    }
  }

  /** No diagonal element of w is smaller than that of m. */
  ghost predicate Raised(n: nat, m: Matrix, w: Matrix) {
    forall k | 0 <= k < n :: Abs(w(k, k)) >= Abs(m(k, k))
  }

  /** Every diagonal element is the largest of its column. */
  ghost predicate ColumnPeaks(n: nat, m: Matrix) {
    forall i, r | 0 <= i < n && 0 <= r < n && r != i :: Abs(m(r, i)) < Abs(m(i, i))
  }

  /** Exchanges rows so that no diagonal element becomes smaller. */
  method Preconditioner(A: array2<real>, B: array<real>, ghost a: Matrix, ghost b: Vector, ghost m: Matrix)
    returns (ghost w: Matrix, ghost ms: seq<Matrix>)
    requires A.Length0 == A.Length1 == B.Length && Holds(A, m) && Preserved(B.Length, a, b, m, VectorOf(B[..]))
    modifies A, B
    ensures Holds(A, w) && Preserved(B.Length, a, b, w, VectorOf(B[..]))
    ensures RaisePass(B.Length, ms) && |ms| == B.Length + 1 && ms[0] == m && ms[B.Length] == w
    ensures Raised(B.Length, m, w)
    ensures ColumnPeaks(B.Length, m) ==> w == m && B[..] == old(B[..])
  {
    w, ms := m, [m];
    hide Preserved, RaiseStep;
    for i := 0 to A.Length0
      invariant Holds(A, w) && Preserved(B.Length, a, b, w, VectorOf(B[..]))
      invariant RaisePass(B.Length, ms) && |ms| == i + 1 && ms[0] == m && ms[i] == w
      invariant Raised(B.Length, m, w)
      invariant ColumnPeaks(B.Length, m) ==> w == m && B[..] == old(B[..])
    {
      hide RaisePass, Raised, ColumnPeaks;
      var pivot := RaisingRow(A, i, w);
      if i != pivot {
        SwapRaises(B.Length, m, w, i, pivot);
        w := Swap(A, B, i, pivot, w, a, b);
      }
      RaisePassMore(B.Length, ms, pivot, w);
      ms := ms + [w];
    }
  }

  lemma SwapRaises(n: nat, m: Matrix, w: Matrix, i: nat, q: nat)
    requires i < n && q < n && i != q && Raised(n, m, w)
    requires Raising(n, w, i, q)
    ensures Raised(n, m, SwapRows(w, i, q)) && !ColumnPeaks(n, w)
  {
    var u := SwapRows(w, i, q);
    assert Candidate(w, i, i) && Abs(w(i, i)) <= Abs(w(q, i));
    assert u(i, i) == w(q, i) && u(q, q) == w(i, q);
    assert ColumnPeaks(n, w) ==> Abs(w(q, i)) < Abs(w(i, i));
  }

  // ------------------------------------------------------------ normalization

  /** Row p of w and of z is that of m and v divided by the diagonal element of m. */
  ghost predicate RowDivided(n: nat, m: Matrix, v: Vector, w: Matrix, z: Vector, p: nat) {
    m(p, p) != 0.0 && z(p) * m(p, p) == v(p) && forall c | 0 <= c < n :: w(p, c) * m(p, p) == m(p, c)
  }

  ghost predicate RowSame(n: nat, m: Matrix, v: Vector, w: Matrix, z: Vector, p: nat) {
    z(p) == v(p) && forall c | 0 <= c < n :: w(p, c) == m(p, c)
  }

  /** The first r rows are divided, the others as before. */
  ghost predicate DividedTo(n: nat, m: Matrix, v: Vector, w: Matrix, z: Vector, r: nat) {
    && (forall p | 0 <= p < n && p < r :: RowDivided(n, m, v, w, z, p))
    && (forall p | r <= p < n :: RowSame(n, m, v, w, z, p))
  }

  /** Divides every row by its diagonal element; stops at a zero. */
  method Normalize(A: array2<real>, B: array<real>, ghost a: Matrix, ghost b: Vector, ghost m: Matrix) returns (ok: bool, ghost w: Matrix)
    requires A.Length0 == A.Length1 == B.Length && Holds(A, m) && Kept(B.Length, a, b, m, VectorOf(B[..]))
    modifies A, B
    ensures Holds(A, w) && Kept(B.Length, a, b, w, VectorOf(B[..]))
    ensures if ok then UnitDiagonal(w, B.Length) else exists r: nat :: r < B.Length && UnitDiagonal(w, r) && w(r, r) == 0.0
    ensures ok <==> NonZeroDiagonal(B.Length, m)
    ensures ok ==> DividedTo(B.Length, m, VectorOf(old(B[..])), w, VectorOf(B[..]), B.Length)
  {
    w := m;
    hide Kept;
    ghost var v := VectorOf(B[..]);
    for r := 0 to A.Length0
      invariant Holds(A, w) && Kept(B.Length, a, b, w, VectorOf(B[..])) && UnitDiagonal(w, r)
      invariant DividedTo(B.Length, m, v, w, VectorOf(B[..]), r)
    {
      assert RowSame(B.Length, m, v, w, VectorOf(B[..]), r);
      if A[r, r] == 0.0 {
        return false, w;
      }
      ghost var u, z := w, VectorOf(B[..]);
      w := DivideRow(A, B, r, a, b, w);
      DividedMore(B.Length, m, v, u, z, w, VectorOf(B[..]), r);
    }
    ok := true;
    forall k | 0 <= k < B.Length
      ensures m(k, k) != 0.0
    {
      assert RowDivided(B.Length, m, v, w, VectorOf(B[..]), k);
    }
  }

  /** Only row r is divided. */
  ghost predicate OneDivided(n: nat, m: Matrix, v: Vector, w: Matrix, z: Vector, r: nat) {
    RowDivided(n, m, v, w, z, r) && forall p | 0 <= p < n && p != r :: RowSame(n, m, v, w, z, p)
  }

  lemma DividedMore(n: nat, m: Matrix, v: Vector, u: Matrix, x: Vector, w: Matrix, z: Vector, r: nat)
    requires DividedTo(n, m, v, u, x, r) && r < n && OneDivided(n, u, x, w, z, r)
    ensures DividedTo(n, m, v, w, z, r + 1)
  {
    assert RowSame(n, m, v, u, x, r);
    forall p | 0 <= p < n && p < r
      ensures RowDivided(n, m, v, w, z, p)
    {
      RowStays(n, m, v, u, x, w, z, p);
    }
    forall p | r < p < n
      ensures RowSame(n, m, v, w, z, p)
    {
      RowStays(n, m, v, u, x, w, z, p);
    }
  }

  lemma RowStays(n: nat, m: Matrix, v: Vector, u: Matrix, x: Vector, w: Matrix, z: Vector, p: nat)
    requires RowSame(n, u, x, w, z, p)
    ensures RowDivided(n, m, v, u, x, p) ==> RowDivided(n, m, v, w, z, p)
    ensures RowSame(n, m, v, u, x, p) ==> RowSame(n, m, v, w, z, p)
  {
  }

  method DivideRow(A: array2<real>, B: array<real>, r: nat, ghost a: Matrix, ghost b: Vector, ghost m: Matrix) returns (ghost w: Matrix)
    requires A.Length0 == A.Length1 == B.Length && r < B.Length && Holds(A, m) && m(r, r) != 0.0
    requires Kept(B.Length, a, b, m, VectorOf(B[..]))
    modifies A, B
    ensures Holds(A, w) && Kept(B.Length, a, b, w, VectorOf(B[..]))
    ensures w(r, r) == 1.0 && forall k | k != r :: w(k, k) == m(k, k)
    ensures OneDivided(B.Length, m, VectorOf(old(B[..])), w, VectorOf(B[..]), r)
  {
    hide Kept;
    ghost var v, g := VectorOf(B[..]), 1.0;
    var f := A[r, r];
    g, w := DivideElements(A, r, 0, m);
    DivideEntry(B, r, f, g);
    ScaleKept(B.Length, a, b, m, v, r, g);
    AgreeingKept(B.Length, a, b, ScaleRow(m, r, g), ScaleEntry(v, r, g), w, VectorOf(B[..]));
    ScaledIsDivided(B.Length, m, v, w, VectorOf(B[..]), r, g);
  }

  lemma ScaledIsDivided(n: nat, m: Matrix, v: Vector, w: Matrix, y: Vector, r: nat, g: real)
    requires r < n && m(r, r) != 0.0 && m(r, r) * g == 1.0 && Same(n, y, ScaleEntry(v, r, g))
    requires forall p, k :: w(p, k) == if p == r && 0 <= k < n then m(p, k) * g else m(p, k)
    ensures OneDivided(n, m, v, w, y, r)
  {
    forall c | 0 <= c < n
      ensures w(r, c) * m(r, r) == m(r, c)
    {
      TimesInverse(m(r, c), m(r, r), g);
    }
    TimesInverse(v(r), m(r, r), g);
    assert y(r) == v(r) * g;
  }

  // ------------------------------------------------------------- the iteration

  /** The values an element of row r is computed from: the new ones, as far as the
      single-step method has them, else the previous ones. */
  ghost function Mixed(single: bool, r: int, x: Vector, y: Vector): Vector {
    c => if c == r then 0.0 else if single && c < r then x(c) else y(c)
  }

  /** The first r elements of x come from those of y by one step. */
  ghost predicate Swept(single: bool, n: nat, m: Matrix, v: Vector, x: Vector, y: Vector, r: nat) {
    forall k | 0 <= k < r :: x(k) == v(k) - Sum(n, Times(Row(m, k), Mixed(single, k, x, y)))
  }

  method OffDiagonal(A: array2<real>, X: array<real>, Xprev: array<real>, r: nat, single: bool, ghost m: Matrix) returns (f: real)
    requires A.Length0 == A.Length1 == X.Length == Xprev.Length && r < X.Length && Holds(A, m)
    ensures f == Sum(X.Length, Times(Row(m, r), Mixed(single, r, VectorOf(X[..]), VectorOf(Xprev[..]))))
  {
    f := 0.0;
    ghost var z := Mixed(single, r, VectorOf(X[..]), VectorOf(Xprev[..]));
    for c := 0 to A.Length1
      invariant f == Sum(c, Times(Row(m, r), z))
    {
      TimesLast(c, Row(m, r), z);
      if c != r {
        f := f + A[r, c] * (if single && c < r then X[c] else Xprev[c]);
      }
    }
  }

  lemma SweptOn(single: bool, n: nat, m: Matrix, v: Vector, x: Vector, z: Vector, y: Vector, r: nat)
    requires Swept(single, n, m, v, x, y, r) && r < n
    requires forall k | 0 <= k < r :: z(k) == x(k)
    requires z(r) == v(r) - Sum(n, Times(Row(m, r), Mixed(single, r, x, y)))
    ensures Swept(single, n, m, v, z, y, r + 1)
  {
    forall k | 0 <= k <= r
      ensures Sum(n, Times(Row(m, k), Mixed(single, k, z, y))) == Sum(n, Times(Row(m, k), Mixed(single, k, x, y)))
    {
      SumCongruence(n, Times(Row(m, k), Mixed(single, k, z, y)), Times(Row(m, k), Mixed(single, k, x, y)));
    }
  }

  /** One step of the iteration. */
  method Sweep(A: array2<real>, B: array<real>, X: array<real>, Xprev: array<real>, single: bool, ghost m: Matrix)
    requires A.Length0 == A.Length1 == B.Length == X.Length == Xprev.Length && X != B && X != Xprev && Holds(A, m)
    modifies X
    ensures Swept(single, X.Length, m, VectorOf(B[..]), VectorOf(X[..]), VectorOf(Xprev[..]), X.Length)
  {
    ghost var n, v, y := X.Length, VectorOf(B[..]), VectorOf(Xprev[..]);
    for r := 0 to X.Length
      invariant B[..] == old(B[..]) && Xprev[..] == old(Xprev[..])
      invariant Swept(single, n, m, v, VectorOf(X[..]), y, r)
    {
      hide Swept;
      ghost var x := VectorOf(X[..]);
      var f := OffDiagonal(A, X, Xprev, r, single, m);
      X[r] := B[r] - f;
      SweptOn(single, n, m, v, x, VectorOf(X[..]), y, r);
    }
  }

  /** How far element c may be off. */
  ghost function Tolerance(x: Vector, abstol: real, reltol: real, c: int): real {
    abstol + reltol * Abs(x(c))
  }

  ghost predicate Near(n: nat, x: Vector, y: Vector, abstol: real, reltol: real) {
    forall r | 0 <= r < n :: Abs(x(r) - y(r)) < Tolerance(x, abstol, reltol, r)
  }

  /** An unknown that was y and is x now changed by less than the tolerances allow. */
  ghost predicate Settled(x: real, y: real, abstol: real, reltol: real) {
    Abs(x - y) < abstol + reltol * Abs(x)
  }

  method Converged(X: array<real>, Xprev: array<real>, abstol: real, reltol: real) returns (conv: bool)
    requires X.Length == Xprev.Length
    ensures conv <==> Near(X.Length, VectorOf(X[..]), VectorOf(Xprev[..]), abstol, reltol)
    ensures conv <==> forall r | 0 <= r < X.Length :: Settled(X[r], Xprev[r], abstol, reltol)
  {
    hide Near, Settled, VectorOf;
    NearIs(X[..], Xprev[..], abstol, reltol);
    for r := 0 to X.Length
      invariant forall k | 0 <= k < r :: Settled(X[k], Xprev[k], abstol, reltol)
    {
      SettledIs(X[r], Xprev[r], abstol, reltol);
      var diff := Abs(X[r] - Xprev[r]);
      if diff >= abstol + reltol * Abs(X[r]) {
        return false;
      }
    }
    return true;
  }

  lemma NearIs(x: seq<real>, y: seq<real>, abstol: real, reltol: real)
    requires |x| == |y|
    ensures Near(|x|, VectorOf(x), VectorOf(y), abstol, reltol) <==>
      forall r | 0 <= r < |x| :: Settled(x[r], y[r], abstol, reltol)
  {
    forall r | 0 <= r < |x|
      ensures Abs(VectorOf(x)(r) - VectorOf(y)(r)) < Tolerance(VectorOf(x), abstol, reltol, r) <==> Settled(x[r], y[r], abstol, reltol)
    {
    }
  }

  lemma SettledIs(x: real, y: real, abstol: real, reltol: real)
    ensures Settled(x, y, abstol, reltol) <==> Abs(x - y) < abstol + reltol * Abs(x)
  {
  }

  // -------------------------------------------------------------- the residual

  /** What the elements beside the diagonal may contribute to the residual of row r. */
  ghost function Allowed(m: Matrix, x: Vector, abstol: real, reltol: real, r: int): Vector {
    c => if c == r then 0.0 else Abs(m(r, c)) * Tolerance(x, abstol, reltol, c)
  }

  ghost function Change(single: bool, x: Vector, y: Vector, r: int): Vector {
    c => if c == r then 0.0 else x(c) - Mixed(single, r, x, y)(c)
  }

  lemma {:induction false} SumWithin(n: nat, f: Vector, g: Vector)
    requires forall c | 0 <= c < n :: Abs(f(c)) <= g(c)
    ensures Abs(Sum(n, f)) <= Sum(n, g)
  {
    if n > 0 { SumWithin(n - 1, f, g); }
  }

  /** After a step that changed little, the residual of every row is small. */
  lemma ResidualBound(single: bool, n: nat, m: Matrix, v: Vector, x: Vector, y: Vector, abstol: real, reltol: real, r: nat)
    requires Swept(single, n, m, v, x, y, n) && Near(n, x, y, abstol, reltol) && UnitDiagonal(m, n) && r < n
    ensures Abs(Apply(n, m, x)(r) - v(r)) <= Sum(n, Allowed(m, x, abstol, reltol, r))
  {
    var d, f := Change(single, x, y, r), Mixed(single, r, x, y);
    ResidualIs(n, m, x, f, d, r);
    assert x(r) == v(r) - Sum(n, Times(Row(m, r), f));
    forall c | 0 <= c < n
      ensures Abs(Times(Row(m, r), d)(c)) <= Allowed(m, x, abstol, reltol, r)(c)
    {
      TermWithin(single, n, m, x, y, abstol, reltol, r, c);
    }
    hide Times, Change, Mixed, Allowed, Sum, Tolerance;
    SumWithin(n, Times(Row(m, r), d), Allowed(m, x, abstol, reltol, r));
  }

  lemma TermWithin(single: bool, n: nat, m: Matrix, x: Vector, y: Vector, abstol: real, reltol: real, r: nat, c: nat)
    requires Near(n, x, y, abstol, reltol) && c < n && r < n
    ensures Abs(Times(Row(m, r), Change(single, x, y, r))(c)) <= Allowed(m, x, abstol, reltol, r)(c)
  {
    var d := Change(single, x, y, r);
    if c == r {
      TimesZero(Row(m, r), d, c);
    } else {
      ChangeWithin(single, n, x, y, abstol, reltol, r, c);
      hide Near, Tolerance, Mixed, Change;
      ProductBounded(m(r, c), d(c), Abs(m(r, c)), Tolerance(x, abstol, reltol, c));
    }
  }

  lemma ChangeWithin(single: bool, n: nat, x: Vector, y: Vector, abstol: real, reltol: real, r: nat, c: nat)
    requires Near(n, x, y, abstol, reltol) && c < n && r < n
    ensures c != r ==> Abs(Change(single, x, y, r)(c)) <= Tolerance(x, abstol, reltol, c)
  {
    assert Abs(x(c) - y(c)) < Tolerance(x, abstol, reltol, c);
  }

  /** The residual is what the changes beside the diagonal contribute. */
  lemma ResidualIs(n: nat, m: Matrix, x: Vector, f: Vector, d: Vector, r: nat)
    requires r < n && m(r, r) == 1.0 && f(r) == 0.0 && d(r) == 0.0
    requires forall c | 0 <= c < n && c != r :: d(c) == x(c) - f(c)
    ensures Apply(n, m, x)(r) == x(r) + Sum(n, Times(Row(m, r), f)) + Sum(n, Times(Row(m, r), d))
  {
    var e: Vector := c => if c == r then x(r) else 0.0;
    var g, h := Times(Row(m, r), f), Times(Row(m, r), d);
    SumSingle(n, r, e);
    SumLinear(n, 1.0, e, 1.0, g);
    SumLinear(n, 1.0, Combine(1.0, e, 1.0, g), 1.0, h);
    forall c | 0 <= c < n
      ensures Times(Row(m, r), x)(c) == Combine(1.0, Combine(1.0, e, 1.0, g), 1.0, h)(c)
    {
      assert c != r ==> m(r, c) * x(c) == m(r, c) * f(c) + m(r, c) * d(c);
    }
    SumCongruence(n, Times(Row(m, r), x), Combine(1.0, Combine(1.0, e, 1.0, g), 1.0, h));
  }

  // ---------------------------------------------------------------- the solver

  /** The k-th list of values comes from the one before by one step. */
  ghost predicate StepTo(single: bool, n: nat, m: Matrix, v: Vector, s: seq<seq<real>>, k: nat)
    requires 0 < k < |s|
  {
    Swept(single, n, m, v, VectorOf(s[k]), VectorOf(s[k - 1]), n)
  }

  ghost predicate NearAt(n: nat, s: seq<seq<real>>, k: nat, abstol: real, reltol: real)
    requires 0 < k < |s|
  {
    Near(n, VectorOf(s[k]), VectorOf(s[k - 1]), abstol, reltol)
  }

  /** The values of the unknowns step by step, from those at the start on. */
  ghost predicate Steps(single: bool, n: nat, m: Matrix, v: Vector, s: seq<seq<real>>) {
    |s| > 0 && (forall k | 0 <= k < |s| :: |s[k]| == n) && forall k | 0 < k < |s| :: StepTo(single, n, m, v, s, k)
  }

  /** A whole iteration: it goes on while the values change, and ends when they are
      near enough or after MaxIter steps, but not before the first. */
  ghost predicate Iteration(single: bool, n: nat, m: Matrix, v: Vector, abstol: real, reltol: real, MaxIter: nat, s: seq<seq<real>>, conv: bool) {
    && Steps(single, n, m, v, s) && |s| > 1
    && (|s| == 2 || |s| <= MaxIter + 1) && (!conv ==> |s| > MaxIter)
    && (forall k | 0 < k < |s| - 1 :: !NearAt(n, s, k, abstol, reltol))
    && (conv <==> NearAt(n, s, |s| - 1, abstol, reltol))
  }

  lemma StepsMore(single: bool, n: nat, m: Matrix, v: Vector, s: seq<seq<real>>, x: seq<real>)
    requires Steps(single, n, m, v, s) && |x| == n && Swept(single, n, m, v, VectorOf(x), VectorOf(s[|s| - 1]), n)
    ensures Steps(single, n, m, v, s + [x])
  {
    hide Swept;
    forall k | 0 < k < |s + [x]|
      ensures StepTo(single, n, m, v, s + [x], k)
    {
      if k < |s| { assert StepTo(single, n, m, v, s, k); }
    }
  }

  ghost predicate NoneNear(n: nat, s: seq<seq<real>>, abstol: real, reltol: real, j: nat)
    requires j <= |s|
  {
    forall k | 0 < k < j :: !NearAt(n, s, k, abstol, reltol)
  }

  lemma NoneNearMore(n: nat, s: seq<seq<real>>, x: seq<real>, abstol: real, reltol: real)
    requires NoneNear(n, s, abstol, reltol, |s|)
    ensures NoneNear(n, s + [x], abstol, reltol, |s|)
  {
    hide Near;
    forall k | 0 < k < |s|
      ensures !NearAt(n, s + [x], k, abstol, reltol)
    {
      assert !NearAt(n, s, k, abstol, reltol);
    }
  }

  /** The residual of every row is as small as the tolerances allow. */
  ghost predicate SmallResidual(n: nat, m: Matrix, v: Vector, x: Vector, abstol: real, reltol: real) {
    forall r | 0 <= r < n :: Abs(Apply(n, m, x)(r) - v(r)) <= Sum(n, Allowed(m, x, abstol, reltol, r))
  }

  lemma IterationEnds(single: bool, n: nat, m: Matrix, v: Vector, s: seq<seq<real>>, abstol: real, reltol: real)
    requires Steps(single, n, m, v, s) && |s| > 1 && NearAt(n, s, |s| - 1, abstol, reltol) && UnitDiagonal(m, n)
    ensures SmallResidual(n, m, v, VectorOf(s[|s| - 1]), abstol, reltol)
  {
    assert StepTo(single, n, m, v, s, |s| - 1);
    var x, y := VectorOf(s[|s| - 1]), VectorOf(s[|s| - 2]);
    forall r | 0 <= r < n
      ensures Abs(Apply(n, m, x)(r) - v(r)) <= Sum(n, Allowed(m, x, abstol, reltol, r))
    {
      ResidualBound(single, n, m, v, x, y, abstol, reltol, r);
    }
  }

  /** An iteration so far. */
  ghost predicate Underway(single: bool, n: nat, m: Matrix, v: Vector, abstol: real, reltol: real, MaxIter: nat, s: seq<seq<real>>, conv: bool) {
    && Steps(single, n, m, v, s) && NoneNear(n, s, abstol, reltol, |s| - 1)
    && (conv <==> |s| > 1 && NearAt(n, s, |s| - 1, abstol, reltol)) && (|s| <= 2 || |s| <= MaxIter + 1)
  }

  lemma MoreSteps(single: bool, n: nat, m: Matrix, v: Vector, abstol: real, reltol: real, MaxIter: nat, s: seq<seq<real>>, x: seq<real>, conv: bool)
    requires Underway(single, n, m, v, abstol, reltol, MaxIter, s, false) && |x| == n && |s| > 0 && (|s| == 1 || |s| <= MaxIter)
    requires Swept(single, n, m, v, VectorOf(x), VectorOf(s[|s| - 1]), n)
    requires conv <==> Near(n, VectorOf(x), VectorOf(s[|s| - 1]), abstol, reltol)
    ensures Underway(single, n, m, v, abstol, reltol, MaxIter, s + [x], conv)
  {
    hide Swept, Near, Steps, NearAt;
    StepsMore(single, n, m, v, s, x);
    assert NoneNear(n, s, abstol, reltol, |s|);
    NoneNearMore(n, s, x, abstol, reltol);
    LastNear(n, s, x, abstol, reltol);
  }

  lemma LastNear(n: nat, s: seq<seq<real>>, x: seq<real>, abstol: real, reltol: real)
    requires |s| > 0
    ensures NearAt(n, s + [x], |s|, abstol, reltol) <==> Near(n, VectorOf(x), VectorOf(s[|s| - 1]), abstol, reltol)
  {
  }

  lemma Stopped(single: bool, n: nat, m: Matrix, v: Vector, abstol: real, reltol: real, MaxIter: nat, s: seq<seq<real>>, conv: bool)
    requires Underway(single, n, m, v, abstol, reltol, MaxIter, s, conv) && |s| > 1 && (conv || |s| > MaxIter) && UnitDiagonal(m, n)
    ensures Iteration(single, n, m, v, abstol, reltol, MaxIter, s, conv)
    ensures conv ==> SmallResidual(n, m, v, VectorOf(s[|s| - 1]), abstol, reltol)
  {
    hide Near, Steps, SmallResidual;
    if conv { IterationEnds(single, n, m, v, s, abstol, reltol); }
  }

  /** One step and its test. */
  method Step(A: array2<real>, B: array<real>, X: array<real>, Xprev: array<real>, single: bool, abstol: real, reltol: real, ghost m: Matrix) returns (conv: bool)
    requires A.Length0 == A.Length1 == B.Length == X.Length == Xprev.Length && X != B && X != Xprev && B != Xprev && Holds(A, m)
    modifies X, Xprev
    ensures Swept(single, X.Length, m, VectorOf(B[..]), VectorOf(X[..]), VectorOf(old(X[..])), X.Length)
    ensures conv <==> Near(X.Length, VectorOf(X[..]), VectorOf(old(X[..])), abstol, reltol)
  {
    hide Swept, Near;
    forall k | 0 <= k < X.Length { Xprev[k] := X[k]; }
    ghost var y := old(X[..]);
    assert Xprev[..] == y;
    Sweep(A, B, X, Xprev, single, m);
    assert Xprev[..] == y;
    conv := Converged(X, Xprev, abstol, reltol);
  }

  /** Iterates until nothing changes much, at most MaxIter times but at least once. */
  method Iterate(A: array2<real>, B: array<real>, X: array<real>, single: bool, abstol: real, reltol: real, MaxIter: nat, ghost m: Matrix)
    returns (conv: bool, ghost s: seq<seq<real>>)
    requires A.Length0 == A.Length1 == B.Length == X.Length && X != B && Holds(A, m) && UnitDiagonal(m, X.Length)
    modifies X
    ensures Iteration(single, X.Length, m, VectorOf(B[..]), abstol, reltol, MaxIter, s, conv)
    ensures s != [] && s[0] == old(X[..]) && X[..] == s[|s| - 1]
    ensures conv ==> SmallResidual(X.Length, m, VectorOf(B[..]), VectorOf(X[..]), abstol, reltol)
  {
    ghost var n, v := X.Length, VectorOf(B[..]);
    var Xprev := new real[X.Length];
    var i := 0;
    conv, s := false, [X[..]];
    assert Underway(single, n, m, v, abstol, reltol, MaxIter, s, conv);
    hide Swept, Near, UnitDiagonal, SmallResidual, Underway, Iteration, Holds, VectorOf;
    while i == 0 || (i < MaxIter && !conv)
      invariant B[..] == old(B[..]) && Holds(A, m) && |s| == i + 1 && s[0] == old(X[..]) && X[..] == s[i]
      invariant Underway(single, n, m, v, abstol, reltol, MaxIter, s, conv) && (i == 0 ==> !conv)
      decreases if i == 0 then MaxIter + 1 else if i < MaxIter then MaxIter - i else 0
    {
      conv := Step(A, B, X, Xprev, single, abstol, reltol, m);
      MoreSteps(single, n, m, v, abstol, reltol, MaxIter, s, X[..], conv);
      s := s + [X[..]];
      i := i + 1;
    }
    Stopped(single, n, m, v, abstol, reltol, MaxIter, s, conv);
  }

  // ------------------------------------------------------------ the fallback

  /** x comes from a new factorization of m: a pivot is missing exactly if a is
      singular; otherwise x solves the system of a, and w holds the factors of m. */
  ghost predicate SolvedAnew(n: nat, a: Matrix, b: Vector, m: Matrix, x: Vector, w: Matrix, p: seq<int>, reported: bool) {
    && (reported <==> Singular(n, a))
    && (!reported ==> Solves(n, a, x, b) && Permutation(p) && Factors(Crout, n, w, p, m))
  }

  /** x comes from the triangles of m: it solves the system they belong to.  That is
      the one of m for every right hand side exactly if m is their product; then x
      solves the system of a. */
  ghost predicate SolvedStale(n: nat, a: Matrix, b: Vector, m: Matrix, v: Vector, x: Vector, p: seq<int>) {
    && |p| == n && Permutation(p) && Solves(n, Unpacked(Crout, m, p), x, v)
    && (SameAnswers(n, Unpacked(Crout, m, p), m) <==> OwnFactors(n, m, p))
    && (OwnFactors(n, m, p) ==> Solves(n, a, x, b))
  }

  /** The iterative solver.  It stops at a zero on the diagonal; on convergence the
      residual of the normalized system, which has the solutions of the one passed,
      is small; otherwise LU decomposition solves the system passed, if it is not
      singular.  Without a new matrix the decomposition is skipped: the triangles of
      the normalized matrix are then taken for factors, which is right for every
      right hand side exactly if their product is that matrix. */
  method SolveIterative(eqns: EquationSystem, single: bool, abstol: real, reltol: real, rounds: nat)
    returns (ok: bool, conv: bool, ghost m: Matrix, ghost s: seq<seq<real>>)
    requires eqns.Valid() && (!eqns.update ==> Permutation(eqns.rMap[..]))
    modifies eqns.A, eqns.B, eqns.X, eqns.rMap, eqns.nPvt, eqns`estack
    ensures eqns.N == old(eqns.N) && eqns.X == old(eqns.X) && eqns.B == old(eqns.B)
    ensures NonZeroDiagonal(eqns.N, old(MatrixOf(eqns.A))) || (rounds > 0 && Mendable(eqns.N, old(MatrixOf(eqns.A)))) ==> ok
    ensures ok ==> Kept(eqns.N, old(MatrixOf(eqns.A)), VectorOf(old(eqns.B[..])), m, VectorOf(eqns.B[..])) && UnitDiagonal(m, eqns.N)
    ensures NonZeroDiagonal(eqns.N, old(MatrixOf(eqns.A))) && ColumnPeaks(eqns.N, old(MatrixOf(eqns.A))) ==>
      DividedTo(eqns.N, old(MatrixOf(eqns.A)), VectorOf(old(eqns.B[..])), m, VectorOf(eqns.B[..]), eqns.N)
    ensures ok ==> Iteration(single, eqns.N, m, VectorOf(eqns.B[..]), abstol, reltol, eqns.N, s, conv) && s != [] && s[0] == old(eqns.X[..])
    ensures ok && conv ==> SmallResidual(eqns.N, m, VectorOf(eqns.B[..]), VectorOf(eqns.X[..]), abstol, reltol)
    ensures ok && conv ==> Holds(eqns.A, m) && eqns.X[..] == s[|s| - 1]
    ensures !ok || conv ==> eqns.rMap[..] == old(eqns.rMap[..]) && eqns.estack == old(eqns.estack)
    ensures ok && !conv ==>
      if eqns.update then
        SolvedAnew(eqns.N, old(MatrixOf(eqns.A)), VectorOf(old(eqns.B[..])), m, VectorOf(eqns.X[..]), MatrixOf(eqns.A), eqns.rMap[..], eqns.estack != old(eqns.estack))
      else
        && eqns.rMap[..] == old(eqns.rMap[..]) && eqns.estack == old(eqns.estack)
        && SolvedStale(eqns.N, old(MatrixOf(eqns.A)), VectorOf(old(eqns.B[..])), m, VectorOf(eqns.B[..]), VectorOf(eqns.X[..]), eqns.rMap[..])
  {
    ghost var n, a, b := eqns.N, MatrixOf(eqns.A), VectorOf(eqns.B[..]);
    ok, m := Prepare(eqns.A, eqns.B, rounds, a, b);
    hide Kept, UnitDiagonal, NonZeroDiagonal, Mendable, ColumnPeaks, DividedTo, Iteration, SmallResidual, SolvedAnew, SolvedStale, MatrixOf, VectorOf;
    conv, s := false, [];
    if ok {
      conv, s := Iterate(eqns.A, eqns.B, eqns.X, single, abstol, reltol, eqns.N, m);
      if !conv {
        FallBack(eqns, a, b, m);
      }
    }
  }

  /** What is done to a system before the iteration: a system with a diagonal that has
      no zero is normalized. */
  method Prepare(A: array2<real>, B: array<real>, rounds: nat, ghost a: Matrix, ghost b: Vector) returns (ok: bool, ghost m: Matrix)
    requires A.Length0 == A.Length1 == B.Length && Holds(A, a) && b == VectorOf(B[..])
    modifies A, B
    ensures NonZeroDiagonal(B.Length, a) || (rounds > 0 && Mendable(B.Length, a)) ==> ok
    ensures Holds(A, m) && Kept(B.Length, a, b, m, VectorOf(B[..])) && (ok ==> UnitDiagonal(m, B.Length))
    ensures NonZeroDiagonal(B.Length, a) && ColumnPeaks(B.Length, a) ==> DividedTo(B.Length, a, b, m, VectorOf(B[..]), B.Length)
  {
    assert Kept(B.Length, a, b, a, b);
    ReorderedSelf(B.Length, a, b);
    hide Kept, UnitDiagonal, Reordered, Raised, NonZeroDiagonal, ColumnPeaks, DividedTo, Mendable, RaisePass;
    m := EnsureDiagonalMna(A, B, rounds, a, b, a);
    ghost var u, ms := m, [m];
    m, ms := Preconditioner(A, B, a, b, u);
    if NonZeroDiagonal(B.Length, u) { RaisedNonZero(B.Length, u, m); }
    ok, m := Normalize(A, B, a, b, m);
  }

  lemma RaisedNonZero(n: nat, m: Matrix, w: Matrix)
    requires Raised(n, m, w) && NonZeroDiagonal(n, m)
    ensures NonZeroDiagonal(n, w)
  {
  }

  /** The decomposition, if it is asked for, and the substitution. */
  method FallBack(eqns: EquationSystem, ghost a: Matrix, ghost b: Vector, ghost m: Matrix)
    requires eqns.Valid() && (!eqns.update ==> Permutation(eqns.rMap[..]))
    requires Holds(eqns.A, m) && Kept(eqns.N, a, b, m, VectorOf(eqns.B[..])) && UnitDiagonal(m, eqns.N)
    modifies eqns.A, eqns.X, eqns.rMap, eqns.nPvt, eqns`estack
    ensures eqns.B[..] == old(eqns.B[..])
    ensures
      if eqns.update then
        SolvedAnew(eqns.N, a, b, m, VectorOf(eqns.X[..]), MatrixOf(eqns.A), eqns.rMap[..], eqns.estack != old(eqns.estack))
      else
        && eqns.rMap[..] == old(eqns.rMap[..]) && eqns.estack == old(eqns.estack)
        && SolvedStale(eqns.N, a, b, m, VectorOf(eqns.B[..]), VectorOf(eqns.X[..]), eqns.rMap[..])
  {
    ghost var n, v := eqns.N, VectorOf(eqns.B[..]);
    if eqns.update {
      eqns.SolveLu(Crout, m);
      SingularKept(n, a, b, m, v);
      SolutionKept(n, a, b, m, v, VectorOf(eqns.X[..]));
      if eqns.estack == old(eqns.estack) {
        NoneReported(n, MatrixOf(eqns.A), eqns.rMap[..], m, eqns.tiny);
      }
    } else {
      ghost var p := eqns.rMap[..];
      UnpackedFactors(Crout, n, m, p);
      hide Kept, Factors, OwnFactors, SameAnswers, Solves;
      FactorsCongruence(Crout, n, m, MatrixOf(eqns.A), p, Unpacked(Crout, m, p));
      eqns.SolveLu(Crout, Unpacked(Crout, m, p));
      StaleRightIff(n, m, p);
      if OwnFactors(n, m, p) { RightAnswer(n, a, b, m, v, p, VectorOf(eqns.X[..])); }
    }
  }

  lemma NoneReported(n: nat, w: Matrix, p: seq<int>, m: Matrix, tiny: real)
    requires Permutation(p) && Factors(Crout, n, w, p, Perturbed(m, tiny, p, []))
    ensures Factors(Crout, n, w, p, m)
  {
    FactorsOfAgreeing(Crout, n, w, p, Perturbed(m, tiny, p, []), m);
  }

  lemma RightAnswer(n: nat, a: Matrix, b: Vector, m: Matrix, v: Vector, p: seq<int>, x: Vector)
    requires Permutation(p) && |p| == n && OwnFactors(n, m, p) && Kept(n, a, b, m, v) && Solves(n, Unpacked(Crout, m, p), x, v)
    ensures Solves(n, a, x, b)
  {
    StaleRightIff(n, m, p);
    SolutionKept(n, a, b, m, v, x);
  }

  lemma SolutionKept(n: nat, a: Matrix, b: Vector, u: Matrix, v: Vector, x: Vector)
    requires Kept(n, a, b, u, v)
    ensures Solves(n, a, x, b) <==> Solves(n, u, x, v)
  {
  }
}
