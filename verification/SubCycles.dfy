/** The check for cyclic subcircuit definitions. */
module SubCycles {
  import opened Netlist
  import opened Flattening
  import opened Options

  // ------------------------------------------------ what soundness means

  /** A definition of this name has an instance of that one. */
  ghost predicate Uses(lib: Library, name: string, ref: string) {
    && Find(lib, name).Some?
    && exists e :: e in Find(lib, name).value.elements && e.IsSub() && e.ref == Some(ref)
  }

  /** Each name on the walk uses the next one. */
  ghost predicate Walk(lib: Library, w: seq<string>) {
    w != [] && forall i, j | 0 <= i && j == i + 1 < |w| :: Uses(lib, w[i], w[j])
  }

  /** The walk ends at a definition that is met for the first time. */
  ghost predicate EndsWell(lib: Library, path: seq<string>, w: seq<string>)
    requires w != []
  {
    var m := |w| - 1;
    Find(lib, w[m]).Some? && w[m] !in path && w[m] !in w[..m]
  }

  lemma SoundUse(lib: Library, path: seq<string>, name: string, ref: string)
    requires Sound(lib, path, name) && Uses(lib, name, ref)
    ensures Sound(lib, path + [name], ref)
  {
  }

  /** From a sound subcircuit every walk ends well. */
  lemma {:induction false} SoundWalks(lib: Library, path: seq<string>, w: seq<string>)
    requires Walk(lib, w) && Sound(lib, path, w[0])
    ensures EndsWell(lib, path, w)
    decreases |w|
  {
    if |w| > 1 {
      var v := w[1..];
      assert Uses(lib, w[0], w[1]);
      SoundUse(lib, path, w[0], w[1]);
      assert Walk(lib, v) by {
        forall i, j | 0 <= i && j == i + 1 < |v| ensures Uses(lib, v[i], v[j]) { assert Uses(lib, w[i + 1], w[j + 1]); }
      }
      SoundWalks(lib, path + [w[0]], v);
      WalkTail(lib, path, w);
    }
  }

  lemma WalkTail(lib: Library, path: seq<string>, w: seq<string>)
    requires |w| > 1 && EndsWell(lib, path + [w[0]], w[1..])
    ensures EndsWell(lib, path, w)
  {
    var m, v := |w| - 1, w[1..];
    assert v[|v| - 1] == w[m];
    assert w[m] != w[0] by { assert (path + [w[0]])[|path|] == w[0]; }
    forall i | 0 <= i < m
      ensures w[i] != w[m]
    {
      if i > 0 { assert v[..|v| - 1][i - 1] == w[i]; }
    }
    assert w[m] !in path by { assert forall x | x in path :: x in path + [w[0]]; }
  }

  ghost predicate WalksEndWell(lib: Library, path: seq<string>, name: string) {
    forall w | Walk(lib, w) && w[0] == name :: EndsWell(lib, path, w)
  }

  /** If every walk ends well, the subcircuit is sound. */
  lemma {:induction false} WalksSound(lib: Library, path: seq<string>, name: string)
    requires WalksEndWell(lib, path, name)
    ensures Sound(lib, path, name)
    decreases Left(lib, path)
  {
    assert Walk(lib, [name]);
    assert EndsWell(lib, path, [name]);
    LeftShrinks(lib, path, name);
    forall e | e in Find(lib, name).value.elements && e.IsSub() && e.ref.Some?
      ensures Sound(lib, path + [name], e.ref.value)
    {
      forall v | Walk(lib, v) && v[0] == e.ref.value
        ensures EndsWell(lib, path + [name], v)
      {
        LongerWalk(lib, path, name, v);
      }
      WalksSound(lib, path + [name], e.ref.value);
    }
  }

  lemma LongerWalk(lib: Library, path: seq<string>, name: string, v: seq<string>)
    requires WalksEndWell(lib, path, name) && Walk(lib, v) && Uses(lib, name, v[0])
    ensures EndsWell(lib, path + [name], v)
  {
    var w := [name] + v;
    forall i, j | 0 <= i && j == i + 1 < |w|
      ensures Uses(lib, w[i], w[j])
    {
      if i > 0 { assert Uses(lib, v[i - 1], v[j - 1]); }
    }
    assert Walk(lib, w) && EndsWell(lib, path, w);
    var m := |v| - 1;
    assert w[|w| - 1] == v[m] && w[..|w| - 1] == [name] + v[..m];
    assert v[m] != name by { assert ([name] + v[..m])[0] == name; }
    assert v[m] !in v[..m] by { assert forall x | x in v[..m] :: x in [name] + v[..m]; }
  }

  /** A subcircuit is sound exactly when everything it leads to is defined and
      nothing it leads to leads back to itself. */
  lemma SoundIffAcyclic(lib: Library, name: string)
    ensures Sound(lib, [], name) <==>
            forall w | Walk(lib, w) && w[0] == name :: Find(lib, w[|w| - 1]).Some? && w[|w| - 1] !in w[..|w| - 1]
  {
    if Sound(lib, [], name) {
      forall w | Walk(lib, w) && w[0] == name
        ensures Find(lib, w[|w| - 1]).Some? && w[|w| - 1] !in w[..|w| - 1]
      {
        SoundWalks(lib, [], w);
      }
    }
    if forall w | Walk(lib, w) && w[0] == name :: Find(lib, w[|w| - 1]).Some? && w[|w| - 1] !in w[..|w| - 1] {
      assert WalksEndWell(lib, [], name);
      WalksSound(lib, [], name);
    }
  }

  // ---------------------------------------------------------- the checker

  lemma LeftOfLonger(lib: Library, path: seq<string>, longer: seq<string>)
    requires path <= longer
    ensures Left(lib, longer) <= Left(lib, path)
  {
    assert forall x | x in path :: x in longer;
  }

  class CycleChecker {
    const lib: Library
    var deps: seq<string>

    constructor (lib: Library)
      ensures this.lib == lib && deps == []
    {
      this.lib := lib;
      deps := [];
    }

    /** Returns the number of errors found from the definition of the given name
        on; `deps` holds the names of the definitions being visited. */
    method Validate(t: Template) returns (errors: nat)
      requires Find(lib, t.name) == Some(t)
      modifies this
      ensures errors == 0 <==> Sound(lib, old(deps), t.name)
      ensures errors == 0 ==> deps == old(deps) + [t.name]
      ensures old(deps) <= deps
      decreases Left(lib, deps)
    {
      if t.name in deps {
        return 1;
      }
      ghost var base := deps + [t.name];
      LeftShrinks(lib, deps, t.name);
      errors, deps := 0, deps + [t.name];
      var tested: seq<string> := [];
      for i := 0 to |t.elements|
        invariant base <= deps && (errors == 0 ==> deps == base)
        invariant errors == 0 ==> forall x | x in tested :: Sound(lib, base, x)
        invariant forall k | 0 <= k < i && t.elements[k].IsSub() && t.elements[k].ref.Some? :: t.elements[k].ref.value in tested
        invariant errors > 0 ==> exists e | e in t.elements :: Unsound(lib, base, e)
      {
        var def := t.elements[i];
        if def.IsSub() && def.ref.Some? && def.ref.value !in tested {
          tested := tested + [def.ref.value];
          var copy := deps;
          var sub := Find(lib, def.ref.value);
          var error: nat;
          if sub.Some? {
            LeftOfLonger(lib, base, deps);
            error := Validate(sub.value);
          } else {
            error := 1;
          }
          if error > 0 {
            assert errors == 0 ==> Unsound(lib, base, def);
            errors := errors + error;
          } else {
            deps := copy;
          }
        }
      }
    }
  }

  ghost predicate Unsound(lib: Library, path: seq<string>, e: Element) {
    e.IsSub() && e.ref.Some? && !Sound(lib, path, e.ref.value)
  }
}
