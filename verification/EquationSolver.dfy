/** The evaluation of equations in their new order. */
module EquationSolver {
  import opened EquationOrder

  type Env = string -> real

  ghost predicate AgreeOn(deps: seq<string>, x: Env, y: Env) {
    forall d | d in deps :: x(d) == y(d)
  }

  /** The right hand side only looks at the references listed. */
  ghost predicate Local(e: Equation) {
    forall x: Env, y: Env | AgreeOn(e.deps, x, y) :: e.body(x) == e.body(y)
  }

  ghost predicate AllLocal(eqns: seq<Equation>) {
    forall e | e in eqns :: Local(e)
  }

  ghost predicate DistinctResults(eqns: seq<Equation>) {
    forall i, j | 0 <= i < j < |eqns| :: eqns[i].result != eqns[j].result
  }

  // ------------------------------------------------- when all can be evaluated

  /** Every reference is generated or defined, and no definition leads back to itself. */
  ghost predicate Ranked(eqns: seq<Equation>, rank: string -> nat) {
    forall e, d | e in eqns && d in e.deps :: IsGenerated(d) || (Defines(eqns, d) && rank(d) < rank(e.result))
  }

  lemma {:induction false} NoneLeftOver(eqns: seq<Equation>, m: nat, rank: string -> nat, j: nat)
    requires Ordered(eqns, m) && Ranked(eqns, rank) && m <= j < |eqns|
    ensures false
    decreases rank(eqns[j].result)
  {
    var d :| d in eqns[j].deps && !Met(eqns[..m], d);
    assert eqns[j] in eqns;
    var i :| 0 <= i < |eqns| && eqns[i].result == d;
    DefinedEarlier(eqns, m, i);
    NoneLeftOver(eqns, m, rank, i);
  }

  lemma DefinedEarlier(eqns: seq<Equation>, m: nat, i: nat)
    requires m <= |eqns| && i < |eqns|
    ensures i < m ==> Defines(eqns[..m], eqns[i].result)
  {
    if i < m { assert eqns[..m][i] == eqns[i]; }
  }

  /** The position of the first equation for n. */
  function IndexOf(eqns: seq<Equation>, n: string): (k: nat)
    ensures k <= |eqns| && (Defines(eqns, n) <==> k < |eqns|) && (k < |eqns| ==> eqns[k].result == n)
    ensures forall i | 0 <= i < k :: eqns[i].result != n
  {
    if eqns == [] then 0
    else
      var last := |eqns| - 1;
      var k := IndexOf(eqns[..last], n);
      if k < last then k else if eqns[last].result == n then last else last + 1
  }

  /** All equations are marked exactly when none has an undefined reference and the
      definitions have no cycle. */
  lemma AllMarkedIff(eqns: seq<Equation>, m: nat)
    requires Ordered(eqns, m) && DistinctResults(eqns)
    ensures m == |eqns| <==> exists rank: string -> nat :: Ranked(eqns, rank)
  {
    if m == |eqns| {
      var rank := n => IndexOf(eqns, n);
      forall e, d | e in eqns && d in e.deps
        ensures IsGenerated(d) || (Defines(eqns, d) && rank(d) < rank(e.result))
      {
        var k :| 0 <= k < |eqns| && eqns[k] == e;
        assert Met(eqns[..k], d);
        if !IsGenerated(d) {
          var i :| 0 <= i < k && eqns[..k][i].result == d;
          assert eqns[i].result == d;
        }
      }
      assert Ranked(eqns, rank);
    } else if rank: string -> nat :| Ranked(eqns, rank) {
      NoneLeftOver(eqns, m, rank, m);
    }
  }

  // ----------------------------------------------------------------- evaluation

  ghost function EnvOf(results: map<string, real>, given: Env): Env {
    n => if n in results then results[n] else given(n)
  }

  /** The results of evaluating the equations one after the other. */
  ghost function Results(eqns: seq<Equation>, given: Env): map<string, real> {
    if eqns == [] then map[]
    else
      var before, e := Results(eqns[..|eqns| - 1], given), eqns[|eqns| - 1];
      before[e.result := e.body(EnvOf(before, given))]
  }

  class Solver {
    var equations: seq<Equation>
    var results: map<string, real>

    constructor (equations: seq<Equation>)
      ensures this.equations == equations && results == map[]
    {
      this.equations, results := equations, map[];
    }

    function Lookup(given: Env): Env
      reads this
    {
      var r := results;
      n => if n in r then r[n] else given(n)
    }

    /** Evaluates the equations that are marked. */
    method Evaluate(given: Env, ghost m: nat)
      requires m <= |equations| && forall k | 0 <= k < |equations| :: equations[k].evalPossible <==> k < m
      requires results == map[]
      modifies this
      ensures equations == old(equations) && results == Results(equations[..m], given)
    {
      for k := 0 to |equations|
        invariant equations == old(equations)
        invariant forall k | 0 <= k < |equations| :: equations[k].evalPossible <==> k < m
        invariant results == Results(equations[..if k < m then k else m], given)
      {
        var eqn := equations[k];
        if eqn.evalPossible {
          assert equations[..k + 1][..k] == equations[..k];
          assert EnvOf(results, given) == Lookup(given);
          results := results[eqn.result := eqn.body(Lookup(given))];
        }
      }
    }
  }

  // ------------------------------------------------------- what the results mean

  lemma {:induction false} ResultsDefine(eqns: seq<Equation>, given: Env, n: string)
    ensures n in Results(eqns, given) <==> Defines(eqns, n)
  {
    if eqns != [] {
      var k := |eqns| - 1;
      ResultsDefine(eqns[..k], given, n);
      assert Defines(eqns[..k], n) ==> exists i | 0 <= i < k :: eqns[..k][i].result == n;
    }
  }

  /** A result is not changed by the equations that follow. */
  lemma {:induction false} ResultStays(eqns: seq<Equation>, given: Env, k: nat, j: nat)
    requires k < j <= |eqns| && DistinctResults(eqns)
    ensures var r, s := Results(eqns[..k + 1], given), Results(eqns[..j], given);
            var n := eqns[k].result;
            n in r && n in s && s[n] == r[n] == eqns[k].body(EnvOf(Results(eqns[..k], given), given))
  {
    assert eqns[..j][..j - 1] == eqns[..j - 1];
    if k + 1 < j { ResultStays(eqns, given, k, j - 1); }
  }

  /** What equation k refers to is not defined by itself or by a later marked one. */
  ghost predicate Untouched(eqns: seq<Equation>, m: nat, k: nat)
    requires k < m <= |eqns|
  {
    forall d | d in eqns[k].deps :: !Defines(eqns[k..m], d)
  }

  ghost predicate AllUntouched(eqns: seq<Equation>, m: nat)
    requires m <= |eqns|
  {
    forall k | 0 <= k < m :: Untouched(eqns, m, k)
  }

  /** For any list: an equation holds between its result and the final values of its
      references, if these are not touched any more. */
  lemma EquationsHold(eqns: seq<Equation>, m: nat, given: Env, k: nat)
    requires k < m <= |eqns| && AllLocal(eqns) && DistinctResults(eqns) && Untouched(eqns, m, k)
    ensures var r := Results(eqns[..m], given);
            eqns[k].result in r && r[eqns[k].result] == eqns[k].body(EnvOf(r, given))
    ensures var r := Results(eqns[..m], given);
            forall x: Env | (forall d | d in eqns[k].deps :: x(d) == if d in r then r[d] else given(d)) ::
              r[eqns[k].result] == eqns[k].body(x)
  {
    var r, s, e := Results(eqns[..m], given), Results(eqns[..k], given), eqns[k];
    ResultStays(eqns, given, k, m);
    forall d | d in e.deps
      ensures EnvOf(r, given)(d) == EnvOf(s, given)(d)
    {
      SameLater(eqns, m, given, k, d);
    }
    assert AgreeOn(e.deps, EnvOf(r, given), EnvOf(s, given));
    assert Local(e);
    forall x: Env | forall d | d in e.deps :: x(d) == if d in r then r[d] else given(d)
      ensures r[e.result] == e.body(x)
    {
      assert AgreeOn(e.deps, x, EnvOf(r, given));
    }
  }

  lemma SameLater(eqns: seq<Equation>, m: nat, given: Env, k: nat, d: string)
    requires k < m <= |eqns| && DistinctResults(eqns) && !Defines(eqns[k..m], d)
    ensures EnvOf(Results(eqns[..m], given), given)(d) == EnvOf(Results(eqns[..k], given), given)(d)
  {
    ResultsDefine(eqns[..m], given, d);
    ResultsDefine(eqns[..k], given, d);
    if Defines(eqns[..k], d) {
      var i :| 0 <= i < k && eqns[..k][i].result == d;
      assert eqns[..m][i].result == d;
      ResultStays(eqns, given, i, k);
      ResultStays(eqns, given, i, m);
    } else {
      NotDefinedAtAll(eqns, m, k, d);
    }
  }

  /** In a list ordered by its references only those of generated form can be touched
      later. */
  lemma UntouchedIff(eqns: seq<Equation>, m: nat, k: nat)
    requires Ordered(eqns, m) && DistinctResults(eqns) && k < m
    ensures Untouched(eqns, m, k) <==> forall d | d in eqns[k].deps && IsGenerated(d) :: !Defines(eqns[k..m], d)
  {
    forall d | d in eqns[k].deps && !IsGenerated(d)
      ensures !Defines(eqns[k..m], d)
    {
      assert Met(eqns[..k], d);
      var i :| 0 <= i < k && eqns[..k][i].result == d;
      forall j | 0 <= j < m - k
        ensures eqns[k..m][j].result != d
      {
        assert eqns[i].result != eqns[k + j].result;
      }
    }
  }

  /** Without generated left hand sides nothing is touched later. */
  lemma ProperUntouched(eqns: seq<Equation>, m: nat)
    requires Ordered(eqns, m) && DistinctResults(eqns) && Proper(eqns)
    ensures AllUntouched(eqns, m)
  {
    forall k | 0 <= k < m
      ensures Untouched(eqns, m, k)
    {
      UntouchedIff(eqns, m, k);
      assert forall j | 0 <= j < m - k :: eqns[k..m][j] == eqns[k + j] && eqns[k + j] in eqns;
    }
  }

  /** With a generated left hand side, ordered lists of the same equations can give
      different results: e takes the given value before g is evaluated, and then does
      not hold, and the value of g after it. */
  lemma ResultsDiffer(e: Equation, g: Equation, given: Env, c: real)
    requires e.deps == [g.result] && g.deps == [] && IsGenerated(g.result) && e.result != g.result
    requires (forall x: Env :: e.body(x) == x(g.result) && g.body(x) == c) && given(g.result) != c
    ensures Ordered([e, g], 2) && Ordered([g, e], 2) && AllLocal([e, g]) && DistinctResults([e, g])
    ensures var r := Results([e, g], given); e.result in r && r[e.result] != e.body(EnvOf(r, given))
    ensures Results([e, g], given) != Results([g, e], given)
  {
    assert forall k | 0 <= k < 2 :: AllMet([e, g][..k], [e, g][k]) && AllMet([g, e][..k], [g, e][k]);
    forall f | f in [e, g]
      ensures Local(f)
    {
      if f == e { assert forall x: Env, y: Env | AgreeOn(e.deps, x, y) :: x(e.deps[0]) == y(e.deps[0]); }
    }
    TwoResults(e, g, given);
    TwoResults(g, e, given);
  }

  lemma TwoResults(e: Equation, g: Equation, given: Env)
    requires e.result != g.result
    ensures var x := e.body(EnvOf(map[], given)); var r := map[e.result := x];
      Results([e, g], given) == map[e.result := x, g.result := g.body(EnvOf(r, given))]
  {
    var none: seq<Equation> := [];
    assert [e, g][..1] == [e] && [e][..0] == none;
    assert Results(none, given) == map[];
    assert Results([e], given) == map[e.result := e.body(EnvOf(map[], given))];
  }

  /** The values do not depend on the order the equations came in. */
  lemma {:induction false} SameValues(a: seq<Equation>, m: nat, b: seq<Equation>, n: nat, given: Env, k: nat)
    requires multiset(a) == multiset(b) && Ordered(a, m) && Ordered(b, n) && k <= m
    requires AllLocal(a) && DistinctResults(a) && AllUntouched(a, m)
    requires AllLocal(b) && DistinctResults(b) && AllUntouched(b, n)
    ensures forall i | 0 <= i < k :: a[i].result in Results(a[..m], given) && a[i].result in Results(b[..n], given)
              && Results(a[..m], given)[a[i].result] == Results(b[..n], given)[a[i].result]
  {
    if k > 0 {
      SameValues(a, m, b, n, given, k - 1);
      var e, r, s := a[k - 1], Results(a[..m], given), Results(b[..n], given);
      SameMarks(a, m, b, n);
      assert e == a[..m][k - 1] && e in b[..n];
      var j :| 0 <= j < n && b[..n][j] == e;
      EquationsHold(a, m, given, k - 1);
      EquationsHold(b, n, given, j);
      forall d | d in e.deps
        ensures EnvOf(r, given)(d) == EnvOf(s, given)(d)
      {
        if Defines(a[..k - 1], d) {
          var i :| 0 <= i < k - 1 && a[..k - 1][i].result == d;
          assert a[i].result == d;
        } else {
          assert Untouched(a, m, k - 1);
          NotDefinedAtAll(a, m, k - 1, d);
          SameNames(b[..n], a[..m], d);
          ResultsDefine(a[..m], given, d);
          ResultsDefine(b[..n], given, d);
        }
      }
      assert AgreeOn(e.deps, EnvOf(r, given), EnvOf(s, given));
      assert Local(e) by { assert e in a; }
    }
  }

  lemma NotDefinedAtAll(eqns: seq<Equation>, m: nat, k: nat, d: string)
    requires k < m <= |eqns| && !Defines(eqns[..k], d) && !Defines(eqns[k..m], d)
    ensures !Defines(eqns[..m], d)
  {
    forall i | 0 <= i < m
      ensures eqns[..m][i].result != d
    {
      if i < k { assert eqns[..k][i] == eqns[i]; } else { assert eqns[k..m][i - k] == eqns[i]; }
    }
  }

  lemma SameResults(a: seq<Equation>, m: nat, b: seq<Equation>, n: nat, given: Env)
    requires multiset(a) == multiset(b) && Ordered(a, m) && Ordered(b, n)
    requires AllLocal(a) && DistinctResults(a) && AllUntouched(a, m)
    requires AllLocal(b) && DistinctResults(b) && AllUntouched(b, n)
    ensures Results(a[..m], given) == Results(b[..n], given)
  {
    SameValues(a, m, b, n, given, m);
    SameMarks(a, m, b, n);
    forall x
      ensures x in Results(a[..m], given) <==> x in Results(b[..n], given)
      ensures x in Results(a[..m], given) ==> Results(a[..m], given)[x] == Results(b[..n], given)[x]
    {
      ResultsDefine(a[..m], given, x);
      ResultsDefine(b[..n], given, x);
      SameNames(a[..m], b[..n], x);
      SameNames(b[..n], a[..m], x);
      if Defines(a[..m], x) {
        var i :| 0 <= i < m && a[..m][i].result == x;
        assert a[i].result == x;
      }
    }
  }

  lemma SameNames(a: seq<Equation>, b: seq<Equation>, x: string)
    requires forall e | e in a :: e in b
    ensures Defines(a, x) ==> Defines(b, x)
  {
    if Defines(a, x) {
      var i :| 0 <= i < |a| && a[i].result == x;
      assert a[i] in b;
    }
  }
}
