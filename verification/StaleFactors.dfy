/** What substitution answers when the matrix in place was never factorized: its
    triangles are taken for factors all the same. */
module StaleFactors {
  import opened LinearAlgebra
  import opened LinearSystems
  import opened LuFactors

  /** Every solution of a system with the matrix u is one with the matrix m. */
  ghost predicate SameAnswers(n: nat, u: Matrix, m: Matrix) {
    forall x, b | Solves(n, u, x, b) :: Solves(n, m, x, b)
  }

  /** Answering with another matrix is right for every right hand side exactly if
      the matrices agree. */
  lemma SameAnswersIff(n: nat, u: Matrix, m: Matrix)
    ensures SameAnswers(n, u, m) <==> Agree(n, u, m)
  {
    if Agree(n, u, m) {
      forall x, b | Solves(n, u, x, b)
        ensures Solves(n, m, x, b)
      {
        SolvesOfAgreeing(n, u, m, x, b);
      }
    }
    if SameAnswers(n, u, m) {
      forall i, j | 0 <= i < n && 0 <= j < n
        ensures u(i, j) == m(i, j)
      {
        SolvesUnit(n, u, j);
        assert Solves(n, m, Unit(j), Column(u, j));
        ApplyUnit(n, m, j, i);
      }
    }
  }

  lemma SolvesUnit(n: nat, u: Matrix, j: nat)
    requires j < n
    ensures Solves(n, u, Unit(j), Column(u, j))
  {
    forall i | 0 <= i < n
      ensures Apply(n, u, Unit(j))(i) == Column(u, j)(i)
    {
      ApplyUnit(n, u, j, i);
    }
  }

  /** The product of the triangles of m is m itself, its rows in the order p. */
  ghost predicate OwnFactors(n: nat, m: Matrix, p: seq<int>)
    requires |p| == n
  {
    forall r, c | 0 <= r < n && 0 <= c < n :: Entry(Crout, m, r, c) == m(p[r], c)
  }

  /** A matrix taken for its own factors belongs to itself exactly if it is the
      product of its triangles. */
  lemma UnpackedIffOwn(n: nat, m: Matrix, p: seq<int>)
    requires Permutation(p) && |p| == n
    ensures Agree(n, Unpacked(Crout, m, p), m) <==> OwnFactors(n, m, p)
  {
    var u := Unpacked(Crout, m, p);
    if Agree(n, u, m) {
      forall r, c | 0 <= r < n && 0 <= c < n
        ensures Entry(Crout, m, r, c) == m(p[r], c)
      {
        OnePlace(p, Position(p, p[r]), r);
        assert u(p[r], c) == m(p[r], c);
      }
    }
    if OwnFactors(n, m, p) {
      forall i, c | 0 <= i < n && 0 <= c < n
        ensures u(i, c) == m(i, c)
      {
        assert Entry(Crout, m, Position(p, i), c) == m(p[Position(p, i)], c);
      }
    }
  }

  /** Substitution without factors is right for every right hand side exactly if the
      matrix is the product of its triangles, in the order of the permutation. */
  lemma StaleRightIff(n: nat, m: Matrix, p: seq<int>)
    requires Permutation(p) && |p| == n
    ensures SameAnswers(n, Unpacked(Crout, m, p), m) <==> OwnFactors(n, m, p)
  {
    SameAnswersIff(n, Unpacked(Crout, m, p), m);
    UnpackedIffOwn(n, m, p);
  }

  /** Otherwise there is a right hand side to which every answer is wrong. */
  lemma StaleAnswersWrongly(n: nat, m: Matrix, p: seq<int>) returns (b: Vector)
    requires Permutation(p) && |p| == n && (forall c | 0 <= c < n :: m(c, c) != 0.0) && !OwnFactors(n, m, p)
    ensures forall x | Solves(n, Unpacked(Crout, m, p), x, b) :: !Solves(n, m, x, b)
  {
    var u := Unpacked(Crout, m, p);
    StaleRightIff(n, m, p);
    var x, v :| Solves(n, u, x, v) && !Solves(n, m, x, v);
    b := v;
    UnpackedFactors(Crout, n, m, p);
    FactoredIsRegular(Crout, n, m, p, u);
    forall y | Solves(n, u, y, b)
      ensures !Solves(n, m, y, b)
    {
      SolutionIsUnique(n, u, x, y, b);
      SameProduct(n, m, x, y, b);
    }
  }

  lemma SameProduct(n: nat, m: Matrix, x: Vector, y: Vector, b: Vector)
    requires forall i | 0 <= i < n :: x(i) == y(i)
    ensures Solves(n, m, x, b) <==> Solves(n, m, y, b)
  {
    forall i | 0 <= i < n
      ensures Apply(n, m, x)(i) == Apply(n, m, y)(i)
    {
      ApplyCongruence(n, m, i, m, i, x, y);
    }
  }

  /** Once a is factorized, its factors in place can stand for it under the same
      condition. */
  lemma FactorsRightIff(n: nat, m: Matrix, p: seq<int>, a: Matrix)
    requires Permutation(p) && Factors(Crout, n, m, p, a)
    ensures SameAnswers(n, m, a) <==> OwnFactors(n, m, p)
  {
    SameAnswersIff(n, m, a);
    if Agree(n, m, a) {
      forall r, c | 0 <= r < n && 0 <= c < n
        ensures Entry(Crout, m, r, c) == m(p[r], c)
      {
        assert m(p[r], c) == a(p[r], c);
      }
    }
    if OwnFactors(n, m, p) {
      forall i, c | 0 <= i < n && 0 <= c < n
        ensures m(i, c) == a(i, c)
      {
        var r := Position(p, i);
        assert Entry(Crout, m, r, c) == m(p[r], c);
      }
    }
  }

  // ------------------------------------------------------ rows never exchanged

  ghost predicate UnitDiagonal(m: Matrix, r: nat) {
    forall k | 0 <= k < r :: m(k, k) == 1.0
  }

  function InPlace(n: nat): (p: seq<int>)
    ensures |p| == n
  {
    seq(n, i => i)
  }

  lemma InPlaceIsPermutation(n: nat)
    ensures Permutation(InPlace(n))
  {
    forall i | 0 <= i < n
      ensures i in InPlace(n)
    {
      assert InPlace(n)[i] == i;
    }
  }

  /** Element (r, c) of the product of the parts of m below and above its diagonal. */
  ghost function Overlap(m: Matrix, r: nat, c: nat): real {
    Inner(m, r, c, if r < c then r else c)
  }

  /** The parts of m below and above its diagonal multiply to zero. */
  ghost predicate TrianglesCancel(n: nat, m: Matrix) {
    forall r, c | 0 <= r < n && 0 <= c < n :: Overlap(m, r, c) == 0.0
  }

  lemma EntryOverlaps(n: nat, m: Matrix, r: nat, c: nat)
    requires UnitDiagonal(m, n) && r < n && c < n
    ensures Entry(Crout, m, r, c) == Overlap(m, r, c) + m(r, c)
  {
    assert m(r, r) == 1.0;
    hide Inner;
  }

  /** With ones on the diagonal and no rows exchanged, the condition is that the parts
      below and above the diagonal multiply to zero. */
  lemma InPlaceRightIff(n: nat, m: Matrix)
    requires UnitDiagonal(m, n)
    ensures OwnFactors(n, m, InPlace(n)) <==> TrianglesCancel(n, m)
  {
    hide Entry, Overlap;
    if TrianglesCancel(n, m) {
      forall r, c | 0 <= r < n && 0 <= c < n
        ensures Entry(Crout, m, r, c) == m(InPlace(n)[r], c)
      {
        EntryOverlaps(n, m, r, c);
      }
    }
    if OwnFactors(n, m, InPlace(n)) {
      forall r, c | 0 <= r < n && 0 <= c < n
        ensures Overlap(m, r, c) == 0.0
      {
        EntryOverlaps(n, m, r, c);
        assert Entry(Crout, m, r, c) == m(InPlace(n)[r], c);
      }
    }
  }
}
