/** The flattening of a hierarchy: what the two passes over blank nodes compute is
    the direct resolution of every node through its enclosing instances. */
module Flattening {
  import opened Netlist
  import opened Options

  /** The defined names that are not in `path`. */
  ghost function Left(lib: Library, path: seq<string>): set<string> {
    set i | 0 <= i < |lib| && lib[i].name !in path :: lib[i].name
  }

  lemma LeftShrinks(lib: Library, path: seq<string>, name: string)
    requires name !in path && Find(lib, name).Some?
    ensures Left(lib, path + [name]) < Left(lib, path)
  {
    assert name == (path + [name])[|path|];
    assert name in Left(lib, path) && name !in Left(lib, path + [name]);
  }

  /** Every subcircuit that `name` leads to is defined, and none leads back to
      itself or to one of the names in `path`. */
  ghost predicate Sound(lib: Library, path: seq<string>, name: string)
    decreases Left(lib, path)
  {
    && name !in path
    && Find(lib, name).Some?
    && (LeftShrinks(lib, path, name);
        forall e | e in Find(lib, name).value.elements && e.IsSub() && e.ref.Some? ::
          Sound(lib, path + [name], e.ref.value))
  }

  /** What the checker demands of instances before the netlist is expanded: every
      instance refers to a definition by name, and has as many nodes. */
  ghost predicate Fits(lib: Library, e: Element) {
    e.IsSub() ==> e.ref.Some? && (Find(lib, e.ref.value).Some? ==> |e.nodes| == |Find(lib, e.ref.value).value.ports|)
  }

  ghost predicate Checked(lib: Library) {
    forall t, e | t in lib && e in t.elements :: Fits(lib, e)
  }

  /** The copies of the first k elements of t for the instance `inst`, in the order
      of the code: the last element first. */
  ghost function Copies(lib: Library, path: seq<string>, t: Template, inst: Element, instances: seq<string>, k: nat): (cs: seq<Copied>)
    requires Checked(lib) && Find(lib, t.name) == Some(t) && Sound(lib, path, t.name)
    requires |inst.nodes| == |t.ports| && k <= |t.elements|
    decreases Left(lib, path), k
  {
    if k == 0 then []
    else
      var e, rest := t.elements[k - 1], Copies(lib, path, t, inst, instances, k - 1);
      if e.IsSub() then
        LeftShrinks(lib, path, t.name);
        assert e in t.elements && Fits(lib, e) && Sound(lib, path + [t.name], e.ref.value);
        var sub := Find(lib, e.ref.value).value;
        FillAll(t, inst, instances, e,
                Copies(lib, path + [t.name], sub, e, instances + [inst.instance], |sub.elements|)) + rest
      else
        [Copied(e.typ, InternalName(t.name, instances, inst.instance, e.instance), TranslateAll(t, inst, instances, e.nodes))] + rest
  }

  /** The definition of an instance inside t is known and sound one level down. */
  lemma InstanceBelow(lib: Library, path: seq<string>, t: Template, e: Element)
    requires Checked(lib) && Find(lib, t.name) == Some(t) && Sound(lib, path, t.name) && e in t.elements && e.IsSub()
    ensures e.ref.Some? && Find(lib, e.ref.value).Some? && |e.nodes| == |Find(lib, e.ref.value).value.ports|
    ensures Sound(lib, path + [t.name], e.ref.value) && Left(lib, path + [t.name]) < Left(lib, path)
  {
    LeftShrinks(lib, path, t.name);
    assert Fits(lib, e) && Sound(lib, path + [t.name], e.ref.value);
  }

  lemma CopiesStep(lib: Library, path: seq<string>, t: Template, inst: Element, instances: seq<string>, k: nat)
    requires Checked(lib) && Find(lib, t.name) == Some(t) && Sound(lib, path, t.name)
    requires |inst.nodes| == |t.ports| && 0 < k <= |t.elements| && t.elements[k - 1].IsSub()
    ensures var e := t.elements[k - 1];
      && e.ref.Some? && Find(lib, e.ref.value).Some? && |e.nodes| == |Find(lib, e.ref.value).value.ports|
      && Sound(lib, path + [t.name], e.ref.value) && Left(lib, path + [t.name]) < Left(lib, path)
      && (var sub := Find(lib, e.ref.value).value;
          && Find(lib, sub.name) == Some(sub) && sub.name == e.ref.value
          && Copies(lib, path, t, inst, instances, k) ==
             FillAll(t, inst, instances, e, Copies(lib, path + [t.name], sub, e, instances + [inst.instance], |sub.elements|))
             + Copies(lib, path, t, inst, instances, k - 1))
  {
    InstanceBelow(lib, path, t, t.elements[k - 1]);
  }

  lemma CopiesEnd(lib: Library, path: seq<string>, t: Template, inst: Element, instances: seq<string>, k: nat)
    requires Checked(lib) && Find(lib, t.name) == Some(t) && Sound(lib, path, t.name)
    requires |inst.nodes| == |t.ports| && k <= |t.elements| && (k > 0 ==> !t.elements[k - 1].IsSub())
    ensures Copies(lib, path, t, inst, instances, k) ==
      if k == 0 then []
      else
        var e := t.elements[k - 1];
        [Copied(e.typ, InternalName(t.name, instances, inst.instance, e.instance), TranslateAll(t, inst, instances, e.nodes))]
        + Copies(lib, path, t, inst, instances, k - 1)
  {
  }

  // ------------------------------------------------------ direct resolution

  /** An instance on the way from the root to an element, with its definition. */
  datatype Frame = Frame(t: Template, inst: Element)

  ghost predicate Framed(fs: seq<Frame>) {
    forall i | 0 <= i < |fs| :: |fs[i].inst.nodes| == |fs[i].t.ports|
  }

  function Instances(fs: seq<Frame>): seq<string> {
    seq(|fs|, i requires 0 <= i < |fs| => fs[i].inst.instance)
  }

  /** The name of node n inside the innermost instance: a port is the node it is
      bound to one level up, everything else is global or internal. */
  function Resolve(fs: seq<Frame>, n: string): string
    requires Framed(fs)
  {
    if fs == [] then n
    else
      var f, up := fs[|fs| - 1], fs[..|fs| - 1];
      var k := PortNr(f.t.ports, n);
      if k > 0 then Resolve(up, f.inst.nodes[k - 1])
      else if IsGlobal(n) then n
      else InternalName(f.t.name, Instances(up), f.inst.instance, n)
  }

  datatype Component = Component(typ: string, instance: string, nodes: seq<string>)

  function ResolveAll(fs: seq<Frame>, nodes: seq<string>): seq<string>
    requires Framed(fs)
  {
    seq(|nodes|, i requires 0 <= i < |nodes| => Resolve(fs, nodes[i]))
  }

  /** The leaves of the first k elements of the innermost definition, each with its
      nodes resolved. */
  ghost function Leaves(lib: Library, path: seq<string>, fs: seq<Frame>, k: nat): seq<Component>
    requires Checked(lib) && Framed(fs) && fs != []
    requires var t := fs[|fs| - 1].t; Find(lib, t.name) == Some(t) && Sound(lib, path, t.name) && k <= |t.elements|
    decreases Left(lib, path), k
  {
    if k == 0 then []
    else
      var f := fs[|fs| - 1];
      var e, rest := f.t.elements[k - 1], Leaves(lib, path, fs, k - 1);
      if e.IsSub() then
        LeftShrinks(lib, path, f.t.name);
        assert e in f.t.elements && Fits(lib, e) && Sound(lib, path + [f.t.name], e.ref.value);
        var sub := Find(lib, e.ref.value).value;
        Leaves(lib, path + [f.t.name], fs + [Frame(sub, e)], |sub.elements|) + rest
      else
        [Component(e.typ, InternalName(f.t.name, Instances(fs[..|fs| - 1]), f.inst.instance, e.instance),
                   ResolveAll(fs, e.nodes))] + rest
  }

  lemma LeavesStep(lib: Library, path: seq<string>, fs: seq<Frame>, k: nat)
    requires Checked(lib) && Framed(fs) && fs != []
    requires var t := fs[|fs| - 1].t; Find(lib, t.name) == Some(t) && Sound(lib, path, t.name) && 0 < k <= |t.elements|
    requires fs[|fs| - 1].t.elements[k - 1].IsSub()
    ensures var t := fs[|fs| - 1].t; var e := t.elements[k - 1];
      && e.ref.Some? && Find(lib, e.ref.value).Some? && |e.nodes| == |Find(lib, e.ref.value).value.ports|
      && Sound(lib, path + [t.name], e.ref.value) && Left(lib, path + [t.name]) < Left(lib, path)
      && (var sub := Find(lib, e.ref.value).value; var gs := fs + [Frame(sub, e)];
          && Framed(gs) && gs[|gs| - 1].t == sub && Find(lib, sub.name) == Some(sub)
          && Leaves(lib, path, fs, k) == Leaves(lib, path + [t.name], gs, |sub.elements|) + Leaves(lib, path, fs, k - 1))
  {
    var t := fs[|fs| - 1].t;
    InstanceBelow(lib, path, t, t.elements[k - 1]);
  }

  lemma LeavesEnd(lib: Library, path: seq<string>, fs: seq<Frame>, k: nat)
    requires Checked(lib) && Framed(fs) && fs != []
    requires var t := fs[|fs| - 1].t; Find(lib, t.name) == Some(t) && Sound(lib, path, t.name) && k <= |t.elements|
    requires k > 0 ==> !fs[|fs| - 1].t.elements[k - 1].IsSub()
    ensures Leaves(lib, path, fs, k) ==
      if k == 0 then []
      else
        var f := fs[|fs| - 1];
        var e := f.t.elements[k - 1];
        [Component(e.typ, InternalName(f.t.name, Instances(fs[..|fs| - 1]), f.inst.instance, e.instance), ResolveAll(fs, e.nodes))]
        + Leaves(lib, path, fs, k - 1)
  {
  }

  // ------------------------------------------- the two passes are the direct way

  /** What a terminal of a copy made inside fs will finally be called. */
  ghost function Meaning(fs: seq<Frame>, x: Terminal): string
    requires Framed(fs) && fs != []
  {
    match x
    case Named(s) => s
    case Blank(k) =>
      var f := fs[|fs| - 1];
      if 0 < k <= |f.inst.nodes| then Resolve(fs[..|fs| - 1], f.inst.nodes[k - 1]) else ""
  }

  /** Blank nodes carry a port number, and only occur below the top level. */
  ghost predicate Proper(fs: seq<Frame>, x: Terminal)
    requires fs != []
  {
    x.Blank? ==> |fs| > 1 && 0 < x.nr <= |fs[|fs| - 1].inst.nodes|
  }

  ghost predicate Means(fs: seq<Frame>, c: Copied, d: Component)
    requires Framed(fs) && fs != []
  {
    && c.typ == d.typ && c.instance == d.instance && |c.nodes| == |d.nodes|
    && forall i | 0 <= i < |c.nodes| :: Proper(fs, c.nodes[i]) && Meaning(fs, c.nodes[i]) == d.nodes[i]
  }

  lemma TranslateMeans(fs: seq<Frame>, n: string)
    requires Framed(fs) && fs != []
    ensures var f := fs[|fs| - 1];
            var x := Translate(f.t, f.inst, Instances(fs[..|fs| - 1]), n);
            Proper(fs, x) && Meaning(fs, x) == Resolve(fs, n)
  {
    hide InternalName, IsGlobal;
  }

  lemma FillMeans(fs: seq<Frame>, sub: Template, e: Element, c: Copied, d: Component)
    requires Framed(fs) && fs != [] && |e.nodes| == |sub.ports|
    requires Framed(fs + [Frame(sub, e)]) && Means(fs + [Frame(sub, e)], c, d)
    ensures var f := fs[|fs| - 1];
            Means(fs, Fill(f.t, f.inst, Instances(fs[..|fs| - 1]), e, c), d)
  {
    var f, gs := fs[|fs| - 1], fs + [Frame(sub, e)];
    assert gs[..|gs| - 1] == fs;
    forall i | 0 <= i < |c.nodes|
      ensures var x := FillNode(f.t, f.inst, Instances(fs[..|fs| - 1]), e, c.nodes[i]);
              Proper(fs, x) && Meaning(fs, x) == d.nodes[i]
    {
      if c.nodes[i].Blank? { TranslateMeans(fs, e.nodes[c.nodes[i].nr - 1]); }
    }
  }

  ghost predicate MeanAll(fs: seq<Frame>, cs: seq<Copied>, ds: seq<Component>)
    requires Framed(fs) && fs != []
  {
    |cs| == |ds| && forall i | 0 <= i < |cs| :: Means(fs, cs[i], ds[i])
  }

  lemma FillAllMeans(fs: seq<Frame>, sub: Template, e: Element, cs: seq<Copied>, ds: seq<Component>)
    requires Framed(fs) && fs != [] && |e.nodes| == |sub.ports|
    requires Framed(fs + [Frame(sub, e)]) && MeanAll(fs + [Frame(sub, e)], cs, ds)
    ensures var f := fs[|fs| - 1];
            MeanAll(fs, FillAll(f.t, f.inst, Instances(fs[..|fs| - 1]), e, cs), ds)
  {
    forall i | 0 <= i < |cs|
      ensures var f := fs[|fs| - 1];
              Means(fs, FillAll(f.t, f.inst, Instances(fs[..|fs| - 1]), e, cs)[i], ds[i])
    {
      FillMeans(fs, sub, e, cs[i], ds[i]);
    }
  }

  lemma ElementMeans(fs: seq<Frame>, e: Element)
    requires Framed(fs) && fs != []
    ensures var f, instances := fs[|fs| - 1], Instances(fs[..|fs| - 1]);
            var name := InternalName(f.t.name, instances, f.inst.instance, e.instance);
            Means(fs, Copied(e.typ, name, TranslateAll(f.t, f.inst, instances, e.nodes)),
                  Component(e.typ, name, ResolveAll(fs, e.nodes)))
  {
    forall i | 0 <= i < |e.nodes|
      ensures var f := fs[|fs| - 1];
              var x := Translate(f.t, f.inst, Instances(fs[..|fs| - 1]), e.nodes[i]);
              Proper(fs, x) && Meaning(fs, x) == Resolve(fs, e.nodes[i])
    {
      TranslateMeans(fs, e.nodes[i]);
    }
  }

  lemma MeanAllAppend(fs: seq<Frame>, cs: seq<Copied>, ds: seq<Component>, cs': seq<Copied>, ds': seq<Component>)
    requires Framed(fs) && fs != [] && MeanAll(fs, cs, ds) && MeanAll(fs, cs', ds')
    ensures MeanAll(fs, cs + cs', ds + ds')
  {
  }

  /** The copies made for an instance are its leaves, up to the nodes that are
      blank until the next level up. */
  lemma {:induction false} CopiesAreLeaves(lib: Library, path: seq<string>, fs: seq<Frame>, k: nat)
    requires Checked(lib) && Framed(fs) && fs != []
    requires var t := fs[|fs| - 1].t; Find(lib, t.name) == Some(t) && Sound(lib, path, t.name) && k <= |t.elements|
    ensures var f := fs[|fs| - 1];
            MeanAll(fs, Copies(lib, path, f.t, f.inst, Instances(fs[..|fs| - 1]), k), Leaves(lib, path, fs, k))
    decreases Left(lib, path), k
  {
    hide Copies, Leaves, Sound, Checked, Left, Find, MeanAll, FillAll;
    var f := fs[|fs| - 1];
    var instances := Instances(fs[..|fs| - 1]);
    if k == 0 {
      CopiesEnd(lib, path, f.t, f.inst, instances, k);
      LeavesEnd(lib, path, fs, k);
      NoneMeant(fs);
    } else {
      var e := f.t.elements[k - 1];
      var cs, ds := Copies(lib, path, f.t, f.inst, instances, k - 1), Leaves(lib, path, fs, k - 1);
      CopiesAreLeaves(lib, path, fs, k - 1);
      if e.IsSub() {
        CopiesStep(lib, path, f.t, f.inst, instances, k);
        LeavesStep(lib, path, fs, k);
        var sub := Find(lib, e.ref.value).value;
        var gs := fs + [Frame(sub, e)];
        assert gs[..|gs| - 1] == fs && Instances(fs) == instances + [f.inst.instance];
        CopiesAreLeaves(lib, path + [f.t.name], gs, |sub.elements|);
        var cs', ds' := Copies(lib, path + [f.t.name], sub, e, Instances(fs), |sub.elements|), Leaves(lib, path + [f.t.name], gs, |sub.elements|);
        FillAllMeans(fs, sub, e, cs', ds');
        MeanAllAppend(fs, FillAll(f.t, f.inst, instances, e, cs'), ds', cs, ds);
      } else {
        CopiesEnd(lib, path, f.t, f.inst, instances, k);
        LeavesEnd(lib, path, fs, k);
        ElementMeans(fs, e);
        var name := InternalName(f.t.name, instances, f.inst.instance, e.instance);
        OneMeant(fs, Copied(e.typ, name, TranslateAll(f.t, f.inst, instances, e.nodes)), Component(e.typ, name, ResolveAll(fs, e.nodes)));
        MeanAllAppend(fs, [Copied(e.typ, name, TranslateAll(f.t, f.inst, instances, e.nodes))],
                      [Component(e.typ, name, ResolveAll(fs, e.nodes))], cs, ds);
      }
    }
  }

  lemma NoneMeant(fs: seq<Frame>)
    requires Framed(fs) && fs != []
    ensures MeanAll(fs, [], [])
  {
  }

  lemma OneMeant(fs: seq<Frame>, c: Copied, d: Component)
    requires Framed(fs) && fs != [] && Means(fs, c, d)
    ensures MeanAll(fs, [c], [d])
  {
  }
}
