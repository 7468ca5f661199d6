/** The order in which equations are evaluated. */
module EquationOrder {

  class Equation {
    const result: string
    const deps: seq<string>
    const body: (string -> real) -> real
    var evalPossible: bool

    constructor (result: string, deps: seq<string>, body: (string -> real) -> real)
      ensures this.result == result && this.deps == deps && this.body == body && !evalPossible
    {
      this.result, this.deps, this.body, evalPossible := result, deps, body, false;
    }
  }

  predicate Digit(c: char) { '0' <= c <= '9' }

  /** A name with a suffix of a dot and four digits. */
  predicate IsGenerated(s: string) {
    && |s| > 5 && s[|s| - 5] == '.'
    && Digit(s[|s| - 1]) && Digit(s[|s| - 2]) && Digit(s[|s| - 3]) && Digit(s[|s| - 4])
  }

  predicate Defines(eqns: seq<Equation>, name: string) {
    exists k | 0 <= k < |eqns| :: eqns[k].result == name
  }

  /** Exactly four decimal digits. */
  ghost predicate FourDigits(d: string) {
    |d| == 4 && forall i | 0 <= i < 4 :: d[i] in "0123456789"
  }

  lemma DigitIs(c: char)
    ensures Digit(c) <==> c in "0123456789"
  {
    assert "0123456789"[0] == '0' && "0123456789"[1] == '1' && "0123456789"[2] == '2' && "0123456789"[3] == '3' && "0123456789"[4] == '4';
    assert "0123456789"[5] == '5' && "0123456789"[6] == '6' && "0123456789"[7] == '7' && "0123456789"[8] == '8' && "0123456789"[9] == '9';
  }

  /** A name with such a suffix is of generated form. */
  lemma SuffixGenerated(n: string, d: string)
    requires n != "" && FourDigits(d)
    ensures IsGenerated(n + "." + d)
  {
    var s := n + "." + d;
    assert s[|s| - 5] == '.';
    forall i | 0 <= i < 4
      ensures Digit(s[|s| - 4 + i]) && s[|s| - 4 + i] == d[i]
    {
      DigitIs(d[i]);
    }
    assert Digit(s[|s| - 4 + 0]) && Digit(s[|s| - 4 + 1]) && Digit(s[|s| - 4 + 2]) && Digit(s[|s| - 4 + 3]);
  }

  /** And there is no other such name. */
  lemma GeneratedSplits(s: string) returns (n: string, d: string)
    requires IsGenerated(s)
    ensures s == n + "." + d && n != "" && FourDigits(d)
  {
    var k := |s| - 5;
    n, d := s[..k], s[k + 1..];
    forall i | 0 <= i < 4
      ensures d[i] in "0123456789"
    {
      assert d[i] == s[k + 1 + i];
      DigitIs(s[|s| - 4]);
      DigitIs(s[|s| - 3]);
      DigitIs(s[|s| - 2]);
      DigitIs(s[|s| - 1]);
    }
    assert s == n + [s[k]] + d;
  }

  /** A counter of five digits or more gives no name of this form. */
  lemma LongCounterNotGenerated(n: string, d: string)
    requires |d| > 4 && forall i | 0 <= i < |d| :: d[i] in "0123456789"
    ensures !IsGenerated(n + "." + d)
  {
    var s := n + "." + d;
    assert s[|s| - 5] == d[|d| - 5];
    DigitIs(d[|d| - 5]);
  }

  // -------------------------------------------------------- counting references

  function Found(root: seq<Equation>, deps: seq<string>): nat {
    if deps == [] then 0
    else Found(root, deps[..|deps| - 1]) + (if Defines(root, deps[|deps| - 1]) then 1 else 0)
  }

  function Gens(deps: seq<string>): nat {
    if deps == [] then 0 else Gens(deps[..|deps| - 1]) + (if IsGenerated(deps[|deps| - 1]) then 1 else 0)
  }

  /** The references that are neither generated nor defined in root, and those that are both. */
  function Missing(root: seq<Equation>, deps: seq<string>): nat {
    if deps == [] then 0
    else
      var d := deps[|deps| - 1];
      Missing(root, deps[..|deps| - 1]) + (if !Defines(root, d) && !IsGenerated(d) then 1 else 0)
  }

  function Twice(root: seq<Equation>, deps: seq<string>): nat {
    if deps == [] then 0
    else
      var d := deps[|deps| - 1];
      Twice(root, deps[..|deps| - 1]) + (if Defines(root, d) && IsGenerated(d) then 1 else 0)
  }

  /** The test of the code compares two counts: it is passed exactly when as many
      references are missing as are counted twice. */
  lemma {:induction false} TestBalances(root: seq<Equation>, deps: seq<string>)
    ensures Found(root, deps) + Gens(deps) + Missing(root, deps) == |deps| + Twice(root, deps)
  {
    if deps != [] { TestBalances(root, deps[..|deps| - 1]); }
  }

  /** The test of the code. */
  predicate Passes(root: seq<Equation>, deps: seq<string>) {
    Found(root, deps) == |deps| - Gens(deps)
  }

  ghost predicate Met(root: seq<Equation>, d: string) { IsGenerated(d) || Defines(root, d) }

  /** What the test is for: every reference is generated or defined in root. */
  ghost predicate RefsMet(root: seq<Equation>, deps: seq<string>) {
    forall d | d in deps :: Met(root, d)
  }

  ghost predicate AllMet(root: seq<Equation>, e: Equation) { RefsMet(root, e.deps) }

  lemma {:induction false} NothingMissing(root: seq<Equation>, deps: seq<string>)
    ensures Missing(root, deps) == 0 <==> RefsMet(root, deps)
  {
    if deps != [] {
      var n := |deps| - 1;
      NothingMissing(root, deps[..n]);
      assert deps == deps[..n] + [deps[n]] && deps[n] in deps;
      assert forall d | d in deps :: d in deps[..n] || d == deps[n];
      assert forall d | d in deps[..n] :: d in deps;
    }
  }

  /** No left hand side looks like a generated name. */
  ghost predicate Proper(eqns: seq<Equation>) {
    forall e | e in eqns :: !IsGenerated(e.result)
  }

  lemma {:induction false} NothingTwice(root: seq<Equation>, deps: seq<string>)
    requires Proper(root)
    ensures Twice(root, deps) == 0
  {
    if deps != [] { NothingTwice(root, deps[..|deps| - 1]); }
  }

  /** Without generated left hand sides the test means that every reference is
      generated or defined earlier. */
  lemma TestMeansMet(root: seq<Equation>, deps: seq<string>)
    requires Proper(root)
    ensures Passes(root, deps) <==> RefsMet(root, deps)
  {
    TestBalances(root, deps);
    NothingMissing(root, deps);
    NothingTwice(root, deps);
  }

  /** For given references the test is right unless a reference is counted twice and
      either none is missing or as many are missing as are counted twice. */
  lemma TestRightIff(root: seq<Equation>, deps: seq<string>)
    ensures (Passes(root, deps) <==> RefsMet(root, deps))
       <==> (Twice(root, deps) == 0 || (Missing(root, deps) > 0 && Missing(root, deps) != Twice(root, deps)))
  {
    TestBalances(root, deps);
    NothingMissing(root, deps);
  }

  /** A string of n letters. */
  function Letters(n: nat): (s: string)
    ensures |s| == n && forall i | 0 <= i < n :: s[i] == 'a'
  {
    if n == 0 then "" else Letters(n - 1) + "a"
  }

  /** A number larger than the length of every left hand side. */
  function Longest(root: seq<Equation>): (n: nat)
    ensures forall e | e in root :: |e.result| < n
  {
    if root == [] then 0
    else
      var m, r := Longest(root[..|root| - 1]), root[|root| - 1].result;
      assert forall e | e in root :: e in root[..|root| - 1] || e == root[|root| - 1];
      if m > |r| then m else |r| + 1
  }

  /** For every list there is a name that is neither defined nor generated. */
  lemma FreshName(root: seq<Equation>) returns (a: string)
    ensures !Met(root, a)
  {
    a := Letters(Longest(root));
    assert !IsGenerated(a) by {
      if |a| > 5 { assert a[|a| - 5] == 'a'; }
    }
    forall k | 0 <= k < |root|
      ensures root[k].result != a
    {
      assert root[k] in root;
    }
  }

  lemma CountOne(root: seq<Equation>, d: string)
    ensures Found(root, [d]) == (if Defines(root, d) then 1 else 0)
    ensures Gens([d]) == (if IsGenerated(d) then 1 else 0)
  {
    var none: seq<string> := [];
    assert [d][..0] == none && Found(root, none) == 0 && Gens(none) == 0;
  }

  /** A reference to a generated left hand side alone fails the test although it is
      defined and generated. */
  lemma DefinedButRefused(root: seq<Equation>, g: string)
    requires Defines(root, g) && IsGenerated(g)
    ensures RefsMet(root, [g]) && !Passes(root, [g])
  {
    CountOne(root, g);
  }

  /** Together with a generated left hand side, a reference that is defined nowhere
      passes the test. */
  lemma UndefinedButAccepted(root: seq<Equation>, g: string, a: string)
    requires Defines(root, g) && IsGenerated(g) && !Met(root, a)
    ensures !RefsMet(root, [a, g]) && Passes(root, [a, g])
  {
    var deps := [a, g];
    assert deps[..1] == [a] && deps[1] == g;
    CountOne(root, a);
    assert Found(root, deps) == 1 && Gens(deps) == 1;
    assert a in deps;
  }

  ghost predicate NeverRefused(root: seq<Equation>) {
    forall deps | RefsMet(root, deps) :: Passes(root, deps)
  }

  ghost predicate NeverAccepted(root: seq<Equation>) {
    forall deps | !RefsMet(root, deps) :: !Passes(root, deps)
  }

  /** The test is right for all references exactly when no left hand side looks like
      a generated name; otherwise it fails in both directions. */
  lemma TestRightIffProper(root: seq<Equation>)
    ensures NeverRefused(root) <==> Proper(root)
    ensures NeverAccepted(root) <==> Proper(root)
  {
    if Proper(root) {
      forall deps: seq<string>
        ensures Passes(root, deps) <==> RefsMet(root, deps)
      {
        TestMeansMet(root, deps);
      }
    } else {
      var e :| e in root && IsGenerated(e.result);
      var k :| 0 <= k < |root| && root[k] == e;
      assert root[k].result == e.result;
      DefinedButRefused(root, e.result);
      var a := FreshName(root);
      UndefinedButAccepted(root, e.result, a);
    }
  }

  // ------------------------------------------------------------- the new order

  /** The first m equations are marked, each only needs earlier ones; the others
      are not marked and each needs one that is not among the first m. */
  ghost predicate Ordered(eqns: seq<Equation>, m: nat) {
    && m <= |eqns|
    && (forall k | 0 <= k < m :: AllMet(eqns[..k], eqns[k]))
    && (forall k | m <= k < |eqns| :: !AllMet(eqns[..m], eqns[k]))
  }

  /** The same, as far as the test can tell. */
  ghost predicate Tested(eqns: seq<Equation>, m: nat) {
    && m <= |eqns|
    && (forall k | 0 <= k < m :: Passes(eqns[..k], eqns[k].deps))
    && (forall k | m <= k < |eqns| :: !Passes(eqns[..m], eqns[k].deps))
  }

  lemma ProperPrefix(eqns: seq<Equation>, k: nat)
    requires Proper(eqns) && k <= |eqns|
    ensures Proper(eqns[..k])
  {
  }

  /** Without generated left hand sides the test gives the order it is meant to. */
  lemma TestedIsOrdered(eqns: seq<Equation>, m: nat)
    requires Proper(eqns)
    ensures Tested(eqns, m) <==> Ordered(eqns, m)
  {
    if m <= |eqns| {
      forall k | 0 <= k < |eqns|
        ensures var i := if k < m then k else m; Passes(eqns[..i], eqns[k].deps) <==> AllMet(eqns[..i], eqns[k])
      {
        var i := if k < m then k else m;
        ProperPrefix(eqns, i);
        TestMeansMet(eqns[..i], eqns[k].deps);
      }
    }
  }

  /** With any left hand sides: a marked equation has an undefined reference exactly
      if one of its references is counted twice; one that is not marked has all its
      references met exactly if none is missing, and then one is counted twice. */
  lemma MarkedMetIff(eqns: seq<Equation>, m: nat, k: nat)
    requires Tested(eqns, m) && k < |eqns|
    ensures k < m ==> (AllMet(eqns[..k], eqns[k]) <==> Twice(eqns[..k], eqns[k].deps) == 0)
    ensures k >= m ==> (AllMet(eqns[..m], eqns[k]) <==> Missing(eqns[..m], eqns[k].deps) == 0)
    ensures k >= m && AllMet(eqns[..m], eqns[k]) ==> Twice(eqns[..m], eqns[k].deps) > 0
  {
    var root := eqns[..if k < m then k else m];
    TestBalances(root, eqns[k].deps);
    NothingMissing(root, eqns[k].deps);
  }

  lemma MetByMore(root: seq<Equation>, more: seq<Equation>, e: Equation)
    requires AllMet(root, e) && forall x | x in root :: x in more
    ensures AllMet(more, e)
  {
    forall d | d in e.deps
      ensures Met(more, d)
    {
      assert Met(root, d);
      if Defines(root, d) {
        var k :| 0 <= k < |root| && root[k].result == d;
        assert root[k] in more;
      }
    }
  }

  /** A set of equations that contains every equation of the list whose references
      it meets. */
  ghost predicate Closed(eqns: seq<Equation>, c: seq<Equation>) {
    forall e | e in eqns && AllMet(c, e) :: e in c
  }

  /** The marked equations are the least closed set. */
  lemma {:induction false} MarkedIsLeast(eqns: seq<Equation>, m: nat, c: seq<Equation>, k: nat)
    requires Ordered(eqns, m) && Closed(eqns, c) && k <= m
    ensures Closed(eqns, eqns[..m])
    ensures forall e | e in eqns[..k] :: e in c
  {
    if k > 0 {
      MarkedIsLeast(eqns, m, c, k - 1);
      MetByMore(eqns[..k - 1], c, eqns[k - 1]);
      assert eqns[..k] == eqns[..k - 1] + [eqns[k - 1]];
    }
    forall e | e in eqns && AllMet(eqns[..m], e)
      ensures e in eqns[..m]
    {
      var i :| 0 <= i < |eqns| && eqns[i] == e;
      assert i < m;
      assert eqns[..m][i] == e;
    }
  }

  /** Which equations are marked does not depend on the order they came in. */
  lemma SameMarks(a: seq<Equation>, m: nat, b: seq<Equation>, n: nat)
    requires multiset(a) == multiset(b) && Ordered(a, m) && Ordered(b, n)
    ensures forall e :: e in a[..m] <==> e in b[..n]
  {
    assert forall e :: e in a <==> e in multiset(a);
    assert forall e :: e in b <==> e in multiset(b);
    MarkedIsLeast(b, n, b[..n], n);
    MarkedIsLeast(a, m, a[..m], m);
    MarkedIsLeast(a, m, b[..n], m);
    MarkedIsLeast(b, n, a[..m], n);
  }

  // ------------------------------------------------------- what is computed

  /** The position of the first equation of rest that passes the test, or |rest|. */
  function FirstReady(root: seq<Equation>, rest: seq<Equation>): (i: nat)
    ensures i <= |rest| && (i < |rest| ==> Passes(root, rest[i].deps))
    ensures forall j | 0 <= j < i :: !Passes(root, rest[j].deps)
  {
    if rest == [] || Passes(root, rest[0].deps) then 0 else 1 + FirstReady(root, rest[1..])
  }

  /** The new order and the number of marked equations, once those in root were moved. */
  function Reorder(root: seq<Equation>, rest: seq<Equation>): (seq<Equation>, nat)
    decreases |rest|
  {
    var i := FirstReady(root, rest);
    if i == |rest| then (root + rest, |root|) else Reorder(root + [rest[i]], rest[..i] + rest[i + 1..])
  }

  lemma ReorderMoves(root: seq<Equation>, rest: seq<Equation>, i: nat)
    requires i < |rest| && Passes(root, rest[i].deps) && NoneReady(root, rest[..i])
    ensures Reorder(root, rest) == Reorder(root + [rest[i]], rest[..i] + rest[i + 1..])
  {
    FirstReadyIs(root, rest, i);
  }

  lemma ReorderEnds(root: seq<Equation>, rest: seq<Equation>)
    requires NoneReady(root, rest)
    ensures Reorder(root, rest) == (root + rest, |root|)
  {
    assert rest[..|rest|] == rest;
    FirstReadyIs(root, rest, |rest|);
  }

  lemma FirstReadyIs(root: seq<Equation>, rest: seq<Equation>, i: nat)
    requires i <= |rest| && (i < |rest| ==> Passes(root, rest[i].deps)) && NoneReady(root, rest[..i])
    ensures FirstReady(root, rest) == i
  {
    forall j | 0 <= j < i
      ensures !Passes(root, rest[j].deps)
    {
      assert rest[j] in rest[..i];
    }
  }

  /** With a generated left hand side the marks depend on the order of the input:
      an equation that refers to it is marked before it but not after it. */
  lemma OrderDecides(e: Equation, g: Equation)
    requires e.deps == [g.result] && g.deps == [] && IsGenerated(g.result)
    ensures Reorder([], [e, g]) == ([e, g], 2)
    ensures Reorder([], [g, e]) == ([g, e], 1)
  {
    var none: seq<Equation> := [];
    CountOne(none, g.result);
    CountOne([g], g.result);
    assert [g][0].result == g.result;
    assert Passes(none, e.deps) && Passes(none, g.deps) && Passes([e], g.deps) && !Passes([g], e.deps);
    hide Reorder, IsGenerated, Passes, Found, Gens, Defines;
    assert [e, g] == [e] + [g] && [g, e] == [g] + [e] && [g] == [g] + none && none + [e] == [e] && none + [g] == [g];
    MoveFirst(none, e, [g]);
    MoveFirst([e], g, none);
    ReorderEnds([e] + [g], none);
    assert [e] + [g] + none == [e] + [g];
    MoveFirst(none, g, [e]);
    ReorderEnds([g], [e]);
  }

  /** The list as it is ordered by the code passes the test of the code. */
  lemma {:induction false} ReorderIsTested(root: seq<Equation>, rest: seq<Equation>)
    requires InOrder(root)
    ensures var (all, m) := Reorder(root, rest); Tested(all, m) && multiset(all) == multiset(root + rest)
    decreases |rest|
  {
    var i := FirstReady(root, rest);
    if i == |rest| {
      Finished(root, rest);
    } else {
      InOrderMore(root, rest[i]);
      MoveKeeps(root, rest, i);
      ReorderIsTested(root + [rest[i]], rest[..i] + rest[i + 1..]);
    }
  }

  /** All references have a suffix of a dot and four digits, and the list defines none
      of them. */
  ghost predicate OnlyGenerated(eqns: seq<Equation>, e: Equation) {
    forall d | d in e.deps :: (exists n, x :: n != "" && FourDigits(x) && d == n + "." + x) && forall k | 0 <= k < |eqns| :: eqns[k].result != d
  }

  lemma {:induction false} AllCounted(root: seq<Equation>, deps: seq<string>)
    requires forall d | d in deps :: IsGenerated(d) && !Defines(root, d)
    ensures Found(root, deps) == 0 && Gens(deps) == |deps|
  {
    if deps != [] {
      var u := deps[..|deps| - 1];
      assert deps[|deps| - 1] in deps && forall d | d in u :: d in deps;
      AllCounted(root, u);
    }
  }

  /** An equation that only refers to generated names is marked, in every list. */
  lemma GeneratedMarked(eqns: seq<Equation>, e: Equation)
    requires e in eqns && OnlyGenerated(eqns, e)
    ensures var (all, m) := Reorder([], eqns); m <= |all| && e in all[..m]
  {
    var (all, m) := Reorder([], eqns);
    ReorderIsTested([], eqns);
    assert [] + eqns == eqns && e in multiset(eqns) && e in multiset(all);
    var k :| 0 <= k < |all| && all[k] == e;
    if k < m {
      assert all[..m][k] == e;
    } else {
      forall d | d in e.deps
        ensures IsGenerated(d) && !Defines(all[..m], d)
      {
        var n, x :| n != "" && FourDigits(x) && d == n + "." + x;
        SuffixGenerated(n, x);
        NotDefinedAfter(eqns, all, m, d);
      }
      AllCounted(all[..m], e.deps);
      assert Passes(all[..m], all[k].deps);
      assert false;
    }
  }

  lemma NotDefinedAfter(eqns: seq<Equation>, all: seq<Equation>, m: nat, d: string)
    requires multiset(all) == multiset(eqns) && m <= |all| && forall k | 0 <= k < |eqns| :: eqns[k].result != d
    ensures !Defines(all[..m], d)
  {
    forall i | 0 <= i < m
      ensures all[..m][i].result != d
    {
      assert all[i] in multiset(all) && all[i] in multiset(eqns);
      assert all[i] in eqns;
    }
  }

  /** The code orders the list by its references. */
  ghost predicate GetsOrdered(eqns: seq<Equation>) {
    var (all, m) := Reorder([], eqns);
    Ordered(all, m)
  }

  /** For any input: the result is ordered exactly if no marked equation has a
      reference that is counted twice and every other one has a missing reference. */
  lemma GetsOrderedIff(eqns: seq<Equation>)
    ensures var (all, m) := Reorder([], eqns);
      && m <= |all|
      && (GetsOrdered(eqns) <==>
          && (forall k | 0 <= k < m :: Twice(all[..k], all[k].deps) == 0)
          && (forall k | m <= k < |all| :: Missing(all[..m], all[k].deps) > 0))
  {
    ReorderIsTested([], eqns);
    var (all, m) := Reorder([], eqns);
    hide Reorder, Twice, Missing, Tested, Ordered;
    OrderedIff(all, m);
  }

  lemma OrderedIff(eqns: seq<Equation>, m: nat)
    requires Tested(eqns, m)
    ensures m <= |eqns|
    ensures Ordered(eqns, m) <==>
      && (forall k | 0 <= k < m :: Twice(eqns[..k], eqns[k].deps) == 0)
      && (forall k | m <= k < |eqns| :: Missing(eqns[..m], eqns[k].deps) > 0)
  {
    forall k | 0 <= k < |eqns|
      ensures if k < m then AllMet(eqns[..k], eqns[k]) <==> Twice(eqns[..k], eqns[k].deps) == 0
              else AllMet(eqns[..m], eqns[k]) <==> Missing(eqns[..m], eqns[k].deps) == 0
    {
      MarkedMetIff(eqns, m, k);
    }
  }

  /** Every left hand side of s belongs to an equation without references as well, and
      some equation of s refers to it alone. */
  ghost predicate Rich(s: set<Equation>) {
    forall n | n in LeftSides(s) :: Defined(s, n) && Referred(s, n)
  }

  ghost function LeftSides(s: set<Equation>): set<string> { set e | e in s :: e.result }

  ghost predicate Defined(s: set<Equation>, n: string) { exists e | e in s :: e.result == n && e.deps == [] }

  ghost predicate Referred(s: set<Equation>, n: string) { exists e | e in s :: e.deps == [n] }

  /** All lists of equations from a rich set are ordered by their references exactly if
      no left hand side of the set is of generated form. */
  lemma AlwaysOrderedIff(s: set<Equation>)
    requires Rich(s)
    ensures (forall eqns: seq<Equation> | (forall e | e in eqns :: e in s) :: GetsOrdered(eqns))
       <==> forall n | n in LeftSides(s) :: !IsGenerated(n)
  {
    hide GetsOrdered, IsGenerated, Defined, Referred;
    if forall n | n in LeftSides(s) :: !IsGenerated(n) {
      forall eqns: seq<Equation> | forall e | e in eqns :: e in s
        ensures GetsOrdered(eqns)
      {
        assert forall e | e in eqns :: e.result in LeftSides(s);
        ProperGetsOrdered(eqns);
      }
    } else {
      var n :| n in LeftSides(s) && IsGenerated(n);
      var eqns := LeftOver(s, n);
      assert forall e | e in eqns :: e in s;
    }
  }

  lemma LeftOver(s: set<Equation>, n: string) returns (eqns: seq<Equation>)
    requires IsGenerated(n) && Defined(s, n) && Referred(s, n)
    ensures !GetsOrdered(eqns) && forall e | e in eqns :: e in s
  {
    var g :| g in s && g.result == n && g.deps == [];
    var e :| e in s && e.deps == [n];
    ReferenceNotOrdered(e, g);
    eqns := [g, e];
  }

  lemma ProperGetsOrdered(eqns: seq<Equation>)
    requires Proper(eqns)
    ensures GetsOrdered(eqns)
  {
    ReorderIsTested([], eqns);
    var (all, m) := Reorder([], eqns);
    assert [] + eqns == eqns;
    forall e | e in all
      ensures !IsGenerated(e.result)
    {
      assert e in multiset(all);
      assert e in multiset(eqns);
    }
    TestedIsOrdered(all, m);
  }

  /** A reference to a generated left hand side that comes first is left over. */
  lemma ReferenceNotOrdered(e: Equation, g: Equation)
    requires e.deps == [g.result] && g.deps == [] && IsGenerated(g.result)
    ensures !GetsOrdered([g, e])
  {
    OrderDecides(e, g);
    var all := [g, e];
    assert all[..1] == [g];
    assert AllMet(all[..1], all[1]);
  }

  lemma MoveFirst(root: seq<Equation>, e: Equation, rest: seq<Equation>)
    requires Passes(root, e.deps)
    ensures Reorder(root, [e] + rest) == Reorder(root + [e], rest)
  {
    var all := [e] + rest;
    ReorderMoves(root, all, 0);
    assert all[..0] + all[1..] == rest;
  }

  // ----------------------------------------------------------- the algorithm

  class Checker {
    var equations: seq<Equation>

    constructor (equations: seq<Equation>)
      ensures this.equations == equations
    {
      this.equations := equations;
    }

    static method FindEquation(root: seq<Equation>, n: string) returns (found: bool)
      ensures found == Defines(root, n)
    {
      for k := 0 to |root|
        invariant forall i | 0 <= i < k :: root[i].result != n
      {
        if root[k].result == n {
          return true;
        }
      }
      return false;
    }

    static method CountReferences(root: seq<Equation>, deps: seq<string>) returns (found: nat, gens: nat)
      ensures found == Found(root, deps) && gens == Gens(deps)
    {
      found, gens := 0, 0;
      for i := 0 to |deps|
        invariant found == Found(root, deps[..i]) && gens == Gens(deps[..i])
      {
        assert deps[..i + 1][..i] == deps[..i];
        var known := FindEquation(root, deps[i]);
        if known { found := found + 1; }
        if IsGenerated(deps[i]) { gens := gens + 1; }
      }
      assert deps[..|deps|] == deps;
    }

    /** The test: without generated left hand sides, whether every reference is found
        in root or generated. */
    static method IsReady(root: seq<Equation>, eqn: Equation) returns (ready: bool)
      ensures ready == Passes(root, eqn.deps)
      ensures Proper(root) ==> ready == AllMet(root, eqn)
    {
      var found, gens := CountReferences(root, eqn.deps);
      if Proper(root) { TestMeansMet(root, eqn.deps); }
      ready := found == |eqn.deps| - gens;
    }

    /** Drops the equation at i, appends it to root and marks it. */
    method MoveEquation(root: seq<Equation>, i: nat, ghost input: seq<Equation>) returns (more: seq<Equation>)
      requires i < |equations| && Passes(root, equations[i].deps) && Halfway(input, root, equations, i)
      modifies this, equations[i]
      ensures more == root + [old(equations[i])] && equations == old(equations[..i] + equations[i + 1..])
      ensures Halfway(input, more, equations, 0)
    {
      ReorderMoves(root, equations, i);
      SameMembers(root, equations, input);
      MoveKeeps(root, equations, i);
      InOrderMore(root, equations[i]);
      var eqn := equations[i];
      equations := equations[..i] + equations[i + 1..];
      more := root + [eqn];
      eqn.evalPossible := true;
    }

    /** Moves every equation that passes the test behind those moved before it,
        starting over after each move, and appends the rest. */
    method ReorderEquations() returns (ghost m: nat)
      requires Unique(equations)
      requires forall e | e in equations :: !e.evalPossible
      modifies this, equations
      ensures multiset(equations) == multiset(old(equations)) && (equations, m) == Reorder([], old(equations))
      ensures Tested(equations, m) && (Proper(old(equations)) ==> Ordered(equations, m))
      ensures forall k | 0 <= k < |equations| :: equations[k].evalPossible <==> k < m
      ensures forall e | e in old(equations) && OnlyGenerated(old(equations), e) :: e.evalPossible
    {
      ghost var input := equations;
      var root: seq<Equation> := [];
      var i := 0;
      Started(input);
      hide Unique, Passes, Proper, Halfway, Reorder, Tested, Ordered;
      while i < |equations|
        invariant i <= |equations|
        invariant Halfway(input, root, equations, i)
        decreases |equations|, |equations| - i
      {
        var eqn := equations[i];
        InInput(input, root, equations, i);
        var ready := IsReady(root, eqn);
        if ready {
          root := MoveEquation(root, i, input);
          i := 0;
        } else {
          Skipped(input, root, equations, i);
          i := i + 1;
        }
      }
      m := |root|;
      Completed(input, root, equations);
      equations := root + equations;
      forall e | e in input && OnlyGenerated(input, e)
        ensures e.evalPossible
      {
        GeneratedMarked(input, e);
        var k :| 0 <= k < m && equations[..m][k] == e;
        assert equations[k] == e;
      }
    }
  }

  /** While the equations are reordered: those in root were moved and the first i of
      the rest do not pass the test. */
  ghost predicate Halfway(input: seq<Equation>, root: seq<Equation>, rest: seq<Equation>, i: nat)
    reads input
  {
    && i <= |rest| && Parts(input, root, rest) && Marked(input, root)
    && InOrder(root) && NoneReady(root, rest[..i])
    && Reorder(root, rest) == Reorder([], input)
  }

  lemma Started(input: seq<Equation>)
    requires forall e | e in input :: !e.evalPossible
    ensures Halfway(input, [], input, 0)
  {
    assert [] + input == input;
  }

  lemma InInput(input: seq<Equation>, root: seq<Equation>, rest: seq<Equation>, i: nat)
    requires Halfway(input, root, rest, i) && i < |rest|
    ensures rest[i] in input
  {
    hide Reorder, InOrder, NoneReady, Marked;
    SameMembers(root, rest, input);
  }

  lemma Skipped(input: seq<Equation>, root: seq<Equation>, rest: seq<Equation>, i: nat)
    requires Halfway(input, root, rest, i) && i < |rest| && !Passes(root, rest[i].deps)
    ensures Halfway(input, root, rest, i + 1)
  {
    hide Reorder, InOrder, Parts, Marked;
    assert rest[..i + 1] == rest[..i] + [rest[i]];
  }

  /** No equation occurs twice. */
  ghost predicate Unique(eqns: seq<Equation>) {
    forall e | e in eqns :: multiset(eqns)[e] == 1
  }

  /** The equations that were moved are the marked ones. */
  ghost predicate Marked(input: seq<Equation>, root: seq<Equation>)
    reads input
  {
    forall e | e in input :: e.evalPossible <==> e in root
  }

  ghost predicate InOrder(root: seq<Equation>) {
    forall k | 0 <= k < |root| :: Passes(root[..k], root[k].deps)
  }

  lemma InOrderMore(root: seq<Equation>, e: Equation)
    requires InOrder(root) && Passes(root, e.deps)
    ensures InOrder(root + [e])
  {
    var more := root + [e];
    forall k | 0 <= k < |more|
      ensures Passes(more[..k], more[k].deps)
    {
      assert more[..k] == root[..k];
    }
    assert more[..|root|] == root;
  }

  ghost predicate NoneReady(root: seq<Equation>, eqns: seq<Equation>) {
    forall e | e in eqns :: !Passes(root, e.deps)
  }

  lemma Finished(root: seq<Equation>, rest: seq<Equation>)
    requires InOrder(root) && NoneReady(root, rest)
    ensures Tested(root + rest, |root|)
  {
    var all, m := root + rest, |root|;
    forall k | 0 <= k < m
      ensures Passes(all[..k], all[k].deps)
    {
      assert all[..k] == root[..k];
    }
    assert all[..m] == root;
  }

  /** root and rest together are the equations of the input. */
  ghost predicate Parts(input: seq<Equation>, root: seq<Equation>, rest: seq<Equation>) {
    multiset(root + rest) == multiset(input)
  }

  lemma SameMembers(root: seq<Equation>, rest: seq<Equation>, input: seq<Equation>)
    requires Parts(input, root, rest)
    ensures forall e | e in root || e in rest :: e in input
    ensures Proper(input) ==> Proper(root + rest)
  {
    forall e | e in root || e in rest
      ensures e in input
    {
      assert e in root + rest;
      assert e in multiset(root + rest);
    }
  }

  lemma Completed(input: seq<Equation>, root: seq<Equation>, rest: seq<Equation>)
    requires Halfway(input, root, rest, |rest|) && Unique(input)
    ensures multiset(root + rest) == multiset(input) && (root + rest, |root|) == Reorder([], input)
    ensures Tested(root + rest, |root|) && (Proper(input) ==> Ordered(root + rest, |root|))
    ensures forall k | 0 <= k < |root + rest| :: (root + rest)[k].evalPossible <==> k < |root|
  {
    assert rest[..|rest|] == rest;
    hide Reorder, Marked, Ordered;
    ReorderEnds(root, rest);
    Finished(root, rest);
    FinalMarks(input, root, rest);
    SameMembers(root, rest, input);
    if Proper(input) { TestedIsOrdered(root + rest, |root|); }
  }

  lemma FinalMarks(input: seq<Equation>, root: seq<Equation>, rest: seq<Equation>)
    requires Marked(input, root) && Parts(input, root, rest) && Unique(input)
    ensures forall k | 0 <= k < |root + rest| :: (root + rest)[k].evalPossible <==> k < |root|
  {
    SameMembers(root, rest, input);
    UniqueHalves(root, rest, input);
  }

  lemma UniqueHalves(root: seq<Equation>, rest: seq<Equation>, input: seq<Equation>)
    requires Parts(input, root, rest) && Unique(input)
    ensures forall e | e in rest :: e !in root
  {
    forall e | e in rest
      ensures e !in root
    {
      assert multiset(root + rest)[e] == multiset(root)[e] + multiset(rest)[e];
      assert e in multiset(rest);
    }
  }

  lemma MoveKeeps(root: seq<Equation>, rest: seq<Equation>, i: nat)
    requires i < |rest|
    ensures multiset((root + [rest[i]]) + (rest[..i] + rest[i + 1..])) == multiset(root + rest)
  {
    assert rest == rest[..i] + [rest[i]] + rest[i + 1..];
  }
}
