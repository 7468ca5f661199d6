/** The terminals of the expanded netlist: where in the hierarchy each of them
    comes from, and that they are named alike exactly if they are joined there. */
module NetlistTerminals {
  import opened Connectivity
  import opened ExpandedNetlist
  import opened Flattening
  import opened InnerNames
  import opened Netlist
  import opened Options

  /** Element number k inside the instance fs leads to. */
  datatype Site = Site(fs: seq<Frame>, k: nat)

  /** An element of the hierarchy that is not an instance. */
  ghost predicate IsSite(lib: Library, root: seq<Element>, s: Site) {
    Placed(lib, root, s.fs) && s.k < |Scope(root, s.fs)| && !Scope(root, s.fs)[s.k].IsSub()
  }

  /** What an element of the hierarchy is in the expanded netlist. */
  ghost function ComponentAt(root: seq<Element>, s: Site): Component
    requires Framed(s.fs) && s.k < |Scope(root, s.fs)|
  {
    var e := Scope(root, s.fs)[s.k];
    if s.fs == [] then Component(e.typ, e.instance, e.nodes)
    else
      var f := s.fs[|s.fs| - 1];
      Component(e.typ, InternalName(f.t.name, Instances(s.fs[..|s.fs| - 1]), f.inst.instance, e.instance), ResolveAll(s.fs, e.nodes))
  }

  /** Where the leaves of the first k elements of the innermost definition are. */
  ghost function Sites(lib: Library, path: seq<string>, fs: seq<Frame>, k: nat): seq<Site>
    requires Checked(lib) && Framed(fs) && fs != []
    requires var t := fs[|fs| - 1].t; Find(lib, t.name) == Some(t) && Sound(lib, path, t.name) && k <= |t.elements|
    decreases Left(lib, path), k
  {
    if k == 0 then []
    else
      var f := fs[|fs| - 1];
      var e, rest := f.t.elements[k - 1], Sites(lib, path, fs, k - 1);
      if e.IsSub() then
        InstanceBelow(lib, path, f.t, e);
        var sub := Find(lib, e.ref.value).value;
        Sites(lib, path + [f.t.name], fs + [Frame(sub, e)], |sub.elements|) + rest
      else
        [Site(fs, k - 1)] + rest
  }

  lemma SitesStep(lib: Library, path: seq<string>, fs: seq<Frame>, k: nat)
    requires Checked(lib) && Framed(fs) && fs != []
    requires var t := fs[|fs| - 1].t; Find(lib, t.name) == Some(t) && Sound(lib, path, t.name) && 0 < k <= |t.elements|
    requires fs[|fs| - 1].t.elements[k - 1].IsSub()
    ensures var t := fs[|fs| - 1].t; var e := t.elements[k - 1];
      && e.ref.Some? && Find(lib, e.ref.value).Some? && |e.nodes| == |Find(lib, e.ref.value).value.ports|
      && Sound(lib, path + [t.name], e.ref.value) && Left(lib, path + [t.name]) < Left(lib, path)
      && (var sub := Find(lib, e.ref.value).value; var gs := fs + [Frame(sub, e)];
          && Framed(gs) && gs[|gs| - 1].t == sub && Find(lib, sub.name) == Some(sub)
          && Sites(lib, path, fs, k) == Sites(lib, path + [t.name], gs, |sub.elements|) + Sites(lib, path, fs, k - 1))
  {
    var t := fs[|fs| - 1].t;
    InstanceBelow(lib, path, t, t.elements[k - 1]);
  }

  lemma SitesEnd(lib: Library, path: seq<string>, fs: seq<Frame>, k: nat)
    requires Checked(lib) && Framed(fs) && fs != []
    requires var t := fs[|fs| - 1].t; Find(lib, t.name) == Some(t) && Sound(lib, path, t.name) && k <= |t.elements|
    requires k > 0 ==> !fs[|fs| - 1].t.elements[k - 1].IsSub()
    ensures Sites(lib, path, fs, k) == if k == 0 then [] else [Site(fs, k - 1)] + Sites(lib, path, fs, k - 1)
  {
  }

  // ---------------------------------------------------- components have sites

  ghost predicate From(root: seq<Element>, ds: seq<Component>, ss: seq<Site>) {
    |ds| == |ss| && forall i | 0 <= i < |ds| :: ComesFrom(root, ds[i], ss[i])
  }

  ghost predicate ComesFrom(root: seq<Element>, d: Component, s: Site) {
    Framed(s.fs) && s.k < |Scope(root, s.fs)| && d == ComponentAt(root, s)
  }

  lemma FromAppend(root: seq<Element>, ds: seq<Component>, ss: seq<Site>, ds': seq<Component>, ss': seq<Site>)
    requires From(root, ds, ss) && From(root, ds', ss')
    ensures From(root, ds + ds', ss + ss')
  {
  }

  lemma {:induction false} LeavesFromSites(lib: Library, root: seq<Element>, path: seq<string>, fs: seq<Frame>, k: nat)
    requires Checked(lib) && Framed(fs) && fs != []
    requires var t := fs[|fs| - 1].t; Find(lib, t.name) == Some(t) && Sound(lib, path, t.name) && k <= |t.elements|
    ensures From(root, Leaves(lib, path, fs, k), Sites(lib, path, fs, k))
    decreases Left(lib, path), k
  {
    if k > 0 {
      var f := fs[|fs| - 1];
      var e := f.t.elements[k - 1];
      LeavesFromSites(lib, root, path, fs, k - 1);
      var ds, ss := Leaves(lib, path, fs, k - 1), Sites(lib, path, fs, k - 1);
      if e.IsSub() {
        InstanceBelow(lib, path, f.t, e);
        var sub := Find(lib, e.ref.value).value;
        var gs := fs + [Frame(sub, e)];
        LeavesFromSites(lib, root, path + [f.t.name], gs, |sub.elements|);
        FromAppend(root, Leaves(lib, path + [f.t.name], gs, |sub.elements|), Sites(lib, path + [f.t.name], gs, |sub.elements|), ds, ss);
      } else {
        var d := Component(e.typ, InternalName(f.t.name, Instances(fs[..|fs| - 1]), f.inst.instance, e.instance), ResolveAll(fs, e.nodes));
        assert ComesFrom(root, d, Site(fs, k - 1));
        FromAppend(root, [d], [Site(fs, k - 1)], ds, ss);
      }
    }
  }

  // -------------------------------------------------- exactly the sites reached

  ghost predicate AllReached(lib: Library, root: seq<Element>, ss: seq<Site>) {
    forall s | s in ss :: IsSite(lib, root, s) && s.fs != []
  }

  lemma ReachedAppend(lib: Library, root: seq<Element>, a: seq<Site>, b: seq<Site>)
    requires AllReached(lib, root, a) && AllReached(lib, root, b)
    ensures AllReached(lib, root, a + b)
  {
    hide IsSite;
  }

  lemma ReachedOne(lib: Library, root: seq<Element>, s: Site)
    requires IsSite(lib, root, s) && s.fs != []
    ensures AllReached(lib, root, [s])
  {
    hide IsSite;
  }

  lemma {:induction false} SitesReached(lib: Library, root: seq<Element>, path: seq<string>, fs: seq<Frame>, k: nat)
    requires Checked(lib) && Framed(fs) && fs != [] && Placed(lib, root, fs)
    requires var t := fs[|fs| - 1].t; Find(lib, t.name) == Some(t) && Sound(lib, path, t.name) && k <= |t.elements|
    ensures AllReached(lib, root, Sites(lib, path, fs, k))
    decreases Left(lib, path), k
  {
    var t := fs[|fs| - 1].t;
    hide Sound, Checked, Left, Placed, Sites, Framed, Find;
    if k == 0 {
      SitesEnd(lib, path, fs, k);
    } else {
      var e, rest := t.elements[k - 1], Sites(lib, path, fs, k - 1);
      assert !e.IsSub() ==> IsSite(lib, root, Site(fs, k - 1));
      hide IsSite, AllReached;
      SitesReached(lib, root, path, fs, k - 1);
      if e.IsSub() {
        SitesStep(lib, path, fs, k);
        var sub := Find(lib, e.ref.value).value;
        FrameBelow(lib, root, fs, e, sub);
        SitesReached(lib, root, path + [t.name], fs + [Frame(sub, e)], |sub.elements|);
        ReachedAppend(lib, root, Sites(lib, path + [t.name], fs + [Frame(sub, e)], |sub.elements|), rest);
      } else {
        SitesEnd(lib, path, fs, k);
        ReachedOne(lib, root, Site(fs, k - 1));
        ReachedAppend(lib, root, [Site(fs, k - 1)], rest);
      }
    }
  }

  lemma FrameBelow(lib: Library, root: seq<Element>, fs: seq<Frame>, e: Element, sub: Template)
    requires Placed(lib, root, fs) && e in Scope(root, fs) && e.IsSub() && e.ref.Some? && Find(lib, e.ref.value) == Some(sub)
    requires |e.nodes| == |sub.ports|
    ensures Placed(lib, root, fs + [Frame(sub, e)])
  {
    var gs := fs + [Frame(sub, e)];
    assert gs[..|gs| - 1] == fs;
  }

  ghost predicate Among(elements: seq<Element>, k: nat, e: Element) {
    exists i | 0 <= i < k && i < |elements| :: elements[i] == e
  }

  /** The site is at or below fs, in or below one of the first k elements there. */
  ghost predicate Below(s: Site, fs: seq<Frame>, k: nat)
    requires fs != [] && k <= |fs[|fs| - 1].t.elements|
  {
    && fs <= s.fs
    && if |s.fs| == |fs| then s.k < k
       else Among(fs[|fs| - 1].t.elements, k, s.fs[|fs|].inst)
  }

  ghost predicate AllBelow(ss: seq<Site>, fs: seq<Frame>, k: nat)
    requires fs != [] && k <= |fs[|fs| - 1].t.elements|
  {
    forall s | s in ss :: Below(s, fs, k)
  }

  lemma OneLess(s: Site, fs: seq<Frame>, k: nat)
    requires fs != [] && 0 < k <= |fs[|fs| - 1].t.elements| && Below(s, fs, k)
    requires if |s.fs| == |fs| then s.k != k - 1 else s.fs[|fs|].inst != fs[|fs| - 1].t.elements[k - 1]
    ensures Below(s, fs, k - 1)
  {
  }

  lemma InAppend(a: seq<Site>, b: seq<Site>, s: Site)
    ensures s in a + b <==> s in a || s in b
  {
  }

  lemma RestIsPart(lib: Library, path: seq<string>, fs: seq<Frame>, k: nat, s: Site)
    requires Checked(lib) && Framed(fs) && fs != []
    requires var t := fs[|fs| - 1].t; Find(lib, t.name) == Some(t) && Sound(lib, path, t.name) && 0 < k <= |t.elements|
    requires s in Sites(lib, path, fs, k - 1) || (!fs[|fs| - 1].t.elements[k - 1].IsSub() && s == Site(fs, k - 1))
    ensures s in Sites(lib, path, fs, k)
  {
    var t := fs[|fs| - 1].t;
    var e := t.elements[k - 1];
    hide Sites, Checked, Sound, Left, Framed, Find;
    if e.IsSub() {
      SitesStep(lib, path, fs, k);
      var sub := Find(lib, e.ref.value).value;
      InAppend(Sites(lib, path + [t.name], fs + [Frame(sub, e)], |sub.elements|), Sites(lib, path, fs, k - 1), s);
    } else {
      SitesEnd(lib, path, fs, k);
      InAppend([Site(fs, k - 1)], Sites(lib, path, fs, k - 1), s);
    }
  }

  lemma {:induction false} SitesComplete(lib: Library, root: seq<Element>, path: seq<string>, fs: seq<Frame>, k: nat, s: Site)
    requires Checked(lib) && Framed(fs) && fs != [] && Placed(lib, root, fs)
    requires var t := fs[|fs| - 1].t; Find(lib, t.name) == Some(t) && Sound(lib, path, t.name) && k <= |t.elements|
    requires IsSite(lib, root, s) && Below(s, fs, k)
    ensures s in Sites(lib, path, fs, k)
    decreases Left(lib, path), k
  {
    var t, m := fs[|fs| - 1].t, |fs|;
    hide Placed, Sites, Sound, Checked, Left, Framed, Find;
    SiteHere(lib, root, fs, k, s);
    var e := t.elements[k - 1];
    if e.IsSub() && |s.fs| > m && s.fs[m].inst == e {
      hide Below, IsSite;
      SitesStep(lib, path, fs, k);
      var sub := Find(lib, e.ref.value).value;
      StepBelow(lib, root, fs, e, sub, s);
      FrameBelow(lib, root, fs, e, sub);
      SitesComplete(lib, root, path + [t.name], fs + [Frame(sub, e)], |sub.elements|, s);
      InAppend(Sites(lib, path + [t.name], fs + [Frame(sub, e)], |sub.elements|), Sites(lib, path, fs, k - 1), s);
    } else {
      if s != Site(fs, k - 1) {
        OneLess(s, fs, k);
        hide Below, IsSite;
        SitesComplete(lib, root, path, fs, k - 1, s);
      }
      RestIsPart(lib, path, fs, k, s);
    }
  }

  lemma SiteHere(lib: Library, root: seq<Element>, fs: seq<Frame>, k: nat, s: Site)
    requires Placed(lib, root, fs) && fs != [] && k <= |fs[|fs| - 1].t.elements| && IsSite(lib, root, s) && Below(s, fs, k)
    ensures k > 0 && fs <= s.fs && (|s.fs| > |fs| ==> s.fs[|fs|].inst.IsSub())
    ensures |s.fs| == |fs| ==> s.fs == fs && s.k < k && !fs[|fs| - 1].t.elements[s.k].IsSub()
  {
    hide Placed;
    if |s.fs| > |fs| { PlacedFrame(lib, root, s.fs, |fs|); }
  }

  lemma AboveBelow(s: Site, fs: seq<Frame>, k: nat, sub: Template, n: nat)
    requires fs != [] && 0 < k <= |fs[|fs| - 1].t.elements| && n <= |sub.elements|
    requires Below(s, fs + [Frame(sub, fs[|fs| - 1].t.elements[k - 1])], n)
    ensures Below(s, fs, k)
  {
    var gs := fs + [Frame(sub, fs[|fs| - 1].t.elements[k - 1])];
    assert s.fs[|fs|] == gs[|fs|] && fs == gs[..|fs|];
  }

  lemma AboveAllBelow(ss: seq<Site>, fs: seq<Frame>, k: nat, sub: Template, n: nat)
    requires fs != [] && 0 < k <= |fs[|fs| - 1].t.elements| && n <= |sub.elements|
    requires AllBelow(ss, fs + [Frame(sub, fs[|fs| - 1].t.elements[k - 1])], n)
    ensures AllBelow(ss, fs, k)
  {
    hide Below;
    forall s | s in ss
      ensures Below(s, fs, k)
    {
      AboveBelow(s, fs, k, sub, n);
    }
  }

  lemma NothingBelow(fs: seq<Frame>, k: nat)
    requires fs != [] && k <= |fs[|fs| - 1].t.elements|
    ensures AllBelow([], fs, k) && (k > 0 ==> AllBelow([Site(fs, k - 1)], fs, k))
  {
  }

  lemma BelowAppend(a: seq<Site>, b: seq<Site>, fs: seq<Frame>, k: nat)
    requires fs != [] && 0 < k <= |fs[|fs| - 1].t.elements|
    requires AllBelow(a, fs, k) && AllBelow(b, fs, k - 1)
    ensures AllBelow(a + b, fs, k)
  {
  }

  lemma {:induction false} SitesBelow(lib: Library, path: seq<string>, fs: seq<Frame>, k: nat)
    requires Checked(lib) && Framed(fs) && fs != []
    requires var t := fs[|fs| - 1].t; Find(lib, t.name) == Some(t) && Sound(lib, path, t.name) && k <= |t.elements|
    ensures AllBelow(Sites(lib, path, fs, k), fs, k)
    decreases Left(lib, path), k
  {
    hide Sound, Checked, Left, Framed, Sites, Find, AllBelow;
    if k == 0 {
      SitesEnd(lib, path, fs, k);
      NothingBelow(fs, k);
    } else {
      var t := fs[|fs| - 1].t;
      var e := t.elements[k - 1];
      SitesBelow(lib, path, fs, k - 1);
      if e.IsSub() {
        SitesStep(lib, path, fs, k);
        var sub := Find(lib, e.ref.value).value;
        var gs := fs + [Frame(sub, e)];
        SitesBelow(lib, path + [t.name], gs, |sub.elements|);
        var ss := Sites(lib, path + [t.name], gs, |sub.elements|);
        AboveAllBelow(ss, fs, k, sub, |sub.elements|);
        BelowAppend(ss, Sites(lib, path, fs, k - 1), fs, k);
      } else {
        SitesEnd(lib, path, fs, k);
        NothingBelow(fs, k);
        BelowAppend([Site(fs, k - 1)], Sites(lib, path, fs, k - 1), fs, k);
      }
    }
  }

  lemma PlacedFrame(lib: Library, root: seq<Element>, fs: seq<Frame>, k: nat)
    requires Placed(lib, root, fs) && k < |fs|
    ensures FrameIn(lib, Scope(root, fs[..k]), fs[k])
  {
    PlacedPrefix(lib, root, fs, k + 1);
    assert fs[..k + 1][..k] == fs[..k] && fs[..k + 1][k] == fs[k];
  }

  lemma StepBelow(lib: Library, root: seq<Element>, fs: seq<Frame>, e: Element, sub: Template, s: Site)
    requires IsSite(lib, root, s) && fs != [] && fs <= s.fs && |s.fs| > |fs| && s.fs[|fs|].inst == e
    requires e.IsSub() && e.ref.Some? && Find(lib, e.ref.value) == Some(sub)
    ensures Below(s, fs + [Frame(sub, e)], |sub.elements|)
  {
    var m := |fs|;
    var gs := fs + [Frame(sub, e)];
    PlacedFrame(lib, root, s.fs, m);
    assert s.fs[m] == Frame(sub, e);
    StepFrames(fs, s.fs, Frame(sub, e));
    assert |s.fs| == m + 1 ==> s.fs == gs;
    if |s.fs| > m + 1 { PlacedFrame(lib, root, s.fs, m + 1); }
    hide Placed;
  }

  lemma StepFrames(fs: seq<Frame>, gs: seq<Frame>, f: Frame)
    requires fs <= gs && |fs| < |gs| && gs[|fs|] == f
    ensures fs + [f] <= gs && gs[..|fs| + 1] == fs + [f]
  {
  }

  // --------------------------------------------------------- the whole netlist

  /** Where the components come from that replace the first k elements of the root. */
  ghost function RootSites(lib: Library, root: seq<Element>, k: nat): seq<Site>
    requires RootFits(lib, root) && k <= |root|
  {
    if k == 0 then []
    else if root[k - 1].IsSub() then
      assert root[k - 1] in root;
      var sub := Find(lib, root[k - 1].ref.value).value;
      Sites(lib, [], [Frame(sub, root[k - 1])], |sub.elements|) + RootSites(lib, root, k - 1)
    else RootSites(lib, root, k - 1)
  }

  /** The components of the root itself, and where they are. */
  function KeptComponents(root: seq<Element>, k: nat): seq<Component>
    requires k <= |root|
  {
    if k == 0 then []
    else
      var e := root[k - 1];
      if e.IsSub() then KeptComponents(root, k - 1) else KeptComponents(root, k - 1) + [Component(e.typ, e.instance, e.nodes)]
  }

  function KeptSites(root: seq<Element>, k: nat): seq<Site>
    requires k <= |root|
  {
    if k == 0 then []
    else if root[k - 1].IsSub() then KeptSites(root, k - 1)
    else KeptSites(root, k - 1) + [Site([], k - 1)]
  }

  /** The expanded netlist: the copies, then the components of the root. */
  ghost function FlatNetlist(lib: Library, root: seq<Element>): seq<Component>
    requires RootFits(lib, root)
  {
    RootLeaves(lib, root, |root|) + KeptComponents(root, |root|)
  }

  ghost function AllSites(lib: Library, root: seq<Element>): seq<Site>
    requires RootFits(lib, root)
  {
    RootSites(lib, root, |root|) + KeptSites(root, |root|)
  }

  lemma {:induction false} RootLeavesFromSites(lib: Library, root: seq<Element>, k: nat)
    requires RootFits(lib, root) && k <= |root|
    ensures From(root, RootLeaves(lib, root, k), RootSites(lib, root, k))
  {
    if k > 0 {
      RootLeavesFromSites(lib, root, k - 1);
      var e := root[k - 1];
      if e.IsSub() {
        assert e in root;
        var sub := Find(lib, e.ref.value).value;
        var fs := [Frame(sub, e)];
        LeavesFromSites(lib, root, [], fs, |sub.elements|);
        FromAppend(root, LeavesOf(lib, e), Sites(lib, [], fs, |sub.elements|), RootLeaves(lib, root, k - 1), RootSites(lib, root, k - 1));
      }
    }
  }

  lemma {:induction false} KeptFromSites(root: seq<Element>, k: nat)
    requires k <= |root|
    ensures From(root, KeptComponents(root, k), KeptSites(root, k))
  {
    if k > 0 {
      KeptFromSites(root, k - 1);
      var e := root[k - 1];
      if !e.IsSub() {
        assert ComesFrom(root, Component(e.typ, e.instance, e.nodes), Site([], k - 1));
        FromAppend(root, KeptComponents(root, k - 1), KeptSites(root, k - 1), [Component(e.typ, e.instance, e.nodes)], [Site([], k - 1)]);
      }
    }
  }

  lemma {:induction false} RootSitesAre(lib: Library, root: seq<Element>, k: nat, s: Site)
    requires RootFits(lib, root) && k <= |root|
    ensures s in RootSites(lib, root, k) <==>
      IsSite(lib, root, s) && s.fs != [] && Among(root, k, s.fs[0].inst)
  {
    if k > 0 {
      hide RootFits, IsSite, Sites;
      RootSitesAre(lib, root, k - 1, s);
      RootSitesStep(lib, root, k, s);
    }
  }

  lemma RootSitesStep(lib: Library, root: seq<Element>, k: nat, s: Site)
    requires RootFits(lib, root) && 0 < k <= |root|
    ensures s in RootSites(lib, root, k) <==>
      s in RootSites(lib, root, k - 1) || (IsSite(lib, root, s) && s.fs != [] && s.fs[0].inst == root[k - 1])
  {
    var e := root[k - 1];
    if e.IsSub() {
      assert e in root;
      hide Sound, Checked, Left, IsSite, Sites;
      SitesOfInstance(lib, root, e, s);
    } else if IsSite(lib, root, s) && s.fs != [] {
      PlacedFrame(lib, root, s.fs, 0);
    }
  }

  lemma SitesOfInstance(lib: Library, root: seq<Element>, e: Element, s: Site)
    requires RootFits(lib, root) && e in root && e.IsSub()
    ensures var sub := Find(lib, e.ref.value).value;
      s in Sites(lib, [], [Frame(sub, e)], |sub.elements|) <==> IsSite(lib, root, s) && s.fs != [] && s.fs[0].inst == e
  {
    var sub := Find(lib, e.ref.value).value;
    var fs := [Frame(sub, e)];
    FrameBelow(lib, root, [], e, sub);
    SitesReached(lib, root, [], fs, |sub.elements|);
    SitesBelow(lib, [], fs, |sub.elements|);
    if IsSite(lib, root, s) && s.fs != [] && s.fs[0].inst == e {
      PlacedFrame(lib, root, s.fs, 0);
      assert fs <= s.fs;
      if |s.fs| > 1 {
        PlacedFrame(lib, root, s.fs, 1);
        assert s.fs[..1] == fs;
      } else {
        assert s.fs == fs;
      }
      SitesComplete(lib, root, [], fs, |sub.elements|, s);
    }
  }

  lemma {:induction false} KeptSitesAre(lib: Library, root: seq<Element>, k: nat, s: Site)
    requires k <= |root|
    ensures s in KeptSites(root, k) <==> IsSite(lib, root, s) && s.fs == [] && s.k < k
  {
    if k > 0 { KeptSitesAre(lib, root, k - 1, s); }
  }

  /** The components of the expanded netlist are exactly the elements of the
      hierarchy that are not instances, each with its nodes resolved. */
  lemma NetlistIsHierarchy(lib: Library, root: seq<Element>)
    requires RootFits(lib, root)
    ensures From(root, FlatNetlist(lib, root), AllSites(lib, root))
    ensures forall s :: s in AllSites(lib, root) <==> IsSite(lib, root, s)
  {
    RootLeavesFromSites(lib, root, |root|);
    KeptFromSites(root, |root|);
    FromAppend(root, RootLeaves(lib, root, |root|), RootSites(lib, root, |root|), KeptComponents(root, |root|), KeptSites(root, |root|));
    forall s
      ensures s in AllSites(lib, root) <==> IsSite(lib, root, s)
    {
      RootSitesAre(lib, root, |root|, s);
      KeptSitesAre(lib, root, |root|, s);
      if IsSite(lib, root, s) && s.fs != [] {
        PlacedFrame(lib, root, s.fs, 0);
        assert s.fs[..0] == [];
      }
    }
  }

  // ------------------------------------------------- each element only once

  ghost predicate Once<T(!new)>(s: seq<T>) {
    forall i, j | 0 <= i < j < |s| :: s[i] != s[j]
  }

  lemma OnceNone<T(!new)>(s: seq<T>)
    ensures s == [] ==> Once(s)
  {
  }

  lemma OnceOne<T(!new)>(x: T)
    ensures Once([x])
  {
  }

  lemma OnceAppend<T(!new)>(a: seq<T>, b: seq<T>)
    requires Once(a) && Once(b) && forall x | x in a :: x !in b
    ensures Once(a + b)
  {
    var s := a + b;
    forall i, j | 0 <= i < j < |s|
      ensures s[i] != s[j]
    {
      if i < |a| <= j { assert s[i] in a && s[j] == b[j - |a|]; }
    }
  }

  /** No two instances in one scope have the same name. */
  ghost predicate InstancesOnce(elements: seq<Element>) {
    forall i, j | 0 <= i < j < |elements| && elements[i].IsSub() && elements[j].IsSub() :: elements[i].instance != elements[j].instance
  }

  ghost predicate ScopesOnce(lib: Library, root: seq<Element>) {
    InstancesOnce(root) && forall t | t in lib :: InstancesOnce(t.elements)
  }

  lemma NotAmongBefore(elements: seq<Element>, k: nat)
    requires InstancesOnce(elements) && 0 < k <= |elements| && elements[k - 1].IsSub()
    ensures !Among(elements, k - 1, elements[k - 1])
  {
  }

  lemma BelowOther(s: Site, fs: seq<Frame>, k: nat, sub: Template, n: nat)
    requires fs != [] && 0 < k <= |fs[|fs| - 1].t.elements| && n <= |sub.elements|
    requires var es := fs[|fs| - 1].t.elements; InstancesOnce(es) && es[k - 1].IsSub()
    requires Below(s, fs + [Frame(sub, fs[|fs| - 1].t.elements[k - 1])], n)
    ensures !Below(s, fs, k - 1)
  {
    var es := fs[|fs| - 1].t.elements;
    var gs := fs + [Frame(sub, es[k - 1])];
    assert s.fs[|fs|] == gs[|fs|];
    NotAmongBefore(es, k);
  }

  lemma SitesLeaf(lib: Library, path: seq<string>, fs: seq<Frame>, k: nat)
    requires Checked(lib) && Framed(fs) && fs != []
    requires var t := fs[|fs| - 1].t; Find(lib, t.name) == Some(t) && Sound(lib, path, t.name) && 0 < k <= |t.elements|
    requires !fs[|fs| - 1].t.elements[k - 1].IsSub()
    ensures Site(fs, k - 1) !in Sites(lib, path, fs, k - 1)
  {
    assert !Below(Site(fs, k - 1), fs, k - 1);
    hide Sites, Sound, Checked, Left, Below, Framed, Find;
    SitesBelow(lib, path, fs, k - 1);
  }

  lemma BelowApart(ss: seq<Site>, rest: seq<Site>, fs: seq<Frame>, k: nat, sub: Template, n: nat)
    requires fs != [] && 0 < k <= |fs[|fs| - 1].t.elements| && n <= |sub.elements|
    requires var es := fs[|fs| - 1].t.elements; InstancesOnce(es) && es[k - 1].IsSub()
    requires AllBelow(ss, fs + [Frame(sub, fs[|fs| - 1].t.elements[k - 1])], n) && AllBelow(rest, fs, k - 1)
    ensures forall s | s in ss :: s !in rest
  {
    hide Below, InstancesOnce;
    forall s | s in ss
      ensures s !in rest
    {
      BelowOther(s, fs, k, sub, n);
    }
  }

  lemma OnceInside(lib: Library, root: seq<Element>, t: Template)
    requires ScopesOnce(lib, root) && Find(lib, t.name) == Some(t)
    ensures InstancesOnce(t.elements)
  {
    assert t in lib;
  }

  lemma SitesApart(lib: Library, root: seq<Element>, path: seq<string>, fs: seq<Frame>, k: nat)
    requires Checked(lib) && Framed(fs) && fs != [] && ScopesOnce(lib, root)
    requires var t := fs[|fs| - 1].t; Find(lib, t.name) == Some(t) && Sound(lib, path, t.name) && 0 < k <= |t.elements|
    requires fs[|fs| - 1].t.elements[k - 1].IsSub()
    ensures var t := fs[|fs| - 1].t; var e := t.elements[k - 1];
      && e.ref.Some? && Find(lib, e.ref.value).Some? && |e.nodes| == |Find(lib, e.ref.value).value.ports|
      && Sound(lib, path + [t.name], e.ref.value)
      && (var sub := Find(lib, e.ref.value).value; var gs := fs + [Frame(sub, e)];
          && Framed(gs) && gs[|gs| - 1].t == sub && Find(lib, sub.name) == Some(sub)
          && forall s | s in Sites(lib, path + [t.name], gs, |sub.elements|) :: s !in Sites(lib, path, fs, k - 1))
  {
    hide Sound, Checked, Left, ScopesOnce, InstancesOnce, Sites, Below, AllBelow, Framed, Find;
    var t := fs[|fs| - 1].t;
    var e, rest := t.elements[k - 1], Sites(lib, path, fs, k - 1);
    OnceInside(lib, root, t);
    SitesBelow(lib, path, fs, k - 1);
    SitesStep(lib, path, fs, k);
    var sub := Find(lib, e.ref.value).value;
    var gs := fs + [Frame(sub, e)];
    SitesBelow(lib, path + [t.name], gs, |sub.elements|);
    BelowApart(Sites(lib, path + [t.name], gs, |sub.elements|), rest, fs, k, sub, |sub.elements|);
  }

  lemma {:induction false} SitesOnce(lib: Library, root: seq<Element>, path: seq<string>, fs: seq<Frame>, k: nat)
    requires Checked(lib) && Framed(fs) && fs != [] && ScopesOnce(lib, root)
    requires var t := fs[|fs| - 1].t; Find(lib, t.name) == Some(t) && Sound(lib, path, t.name) && k <= |t.elements|
    ensures Once(Sites(lib, path, fs, k))
    decreases Left(lib, path), k
  {
    hide Sites, Sound, Checked, Left, ScopesOnce, InstancesOnce, Once, Below, Framed, Find;
    if k == 0 {
      SitesEnd(lib, path, fs, k);
      OnceNone(Sites(lib, path, fs, k));
    } else {
      var t := fs[|fs| - 1].t;
      var e, rest := t.elements[k - 1], Sites(lib, path, fs, k - 1);
      SitesOnce(lib, root, path, fs, k - 1);
      if e.IsSub() {
        SitesStep(lib, path, fs, k);
        SitesApart(lib, root, path, fs, k);
        var sub := Find(lib, e.ref.value).value;
        SitesOnce(lib, root, path + [t.name], fs + [Frame(sub, e)], |sub.elements|);
        OnceAppend(Sites(lib, path + [t.name], fs + [Frame(sub, e)], |sub.elements|), rest);
      } else {
        SitesEnd(lib, path, fs, k);
        SitesLeaf(lib, path, fs, k);
        OnceOne(Site(fs, k - 1));
        OnceAppend([Site(fs, k - 1)], rest);
      }
    }
  }

  lemma RootSiteApart(lib: Library, root: seq<Element>, k: nat, e: Element, s: Site)
    requires RootFits(lib, root) && InstancesOnce(root) && 0 < k <= |root| && e == root[k - 1] && e.IsSub() && e in root
    requires s in Sites(lib, [], [Frame(Find(lib, e.ref.value).value, e)], |Find(lib, e.ref.value).value.elements|)
    ensures s !in RootSites(lib, root, k - 1)
  {
    NotAmongBefore(root, k);
    SitesOfInstance(lib, root, e, s);
    hide InstancesOnce, Sites, RootSites, IsSite, Among, Checked, Framed, Sound;
    RootSitesAre(lib, root, k - 1, s);
  }

  lemma {:induction false} RootSitesOnce(lib: Library, root: seq<Element>, k: nat)
    requires RootFits(lib, root) && ScopesOnce(lib, root) && k <= |root|
    ensures Once(RootSites(lib, root, k))
  {
    if k > 0 {
      RootSitesOnce(lib, root, k - 1);
      var e := root[k - 1];
      if e.IsSub() {
        assert e in root;
        var sub := Find(lib, e.ref.value).value;
        var ss := Sites(lib, [], [Frame(sub, e)], |sub.elements|);
        assert RootSites(lib, root, k) == ss + RootSites(lib, root, k - 1);
        assert InstancesOnce(root);
        hide ScopesOnce, InstancesOnce, Sites, RootSites, Once;
        SitesOnce(lib, root, [], [Frame(sub, e)], |sub.elements|);
        forall s | s in ss
          ensures s !in RootSites(lib, root, k - 1)
        {
          RootSiteApart(lib, root, k, e, s);
        }
        OnceAppend(ss, RootSites(lib, root, k - 1));
      }
    }
  }

  lemma {:induction false} KeptSitesOnce(lib: Library, root: seq<Element>, k: nat)
    requires k <= |root|
    ensures Once(KeptSites(root, k))
  {
    if k > 0 {
      KeptSitesOnce(lib, root, k - 1);
      if !root[k - 1].IsSub() {
        KeptSitesAre(lib, root, k - 1, Site([], k - 1));
        OnceAppend(KeptSites(root, k - 1), [Site([], k - 1)]);
      }
    }
  }

  /** Every element of the hierarchy is in the expanded netlist only once. */
  lemma AllSitesOnce(lib: Library, root: seq<Element>)
    requires RootFits(lib, root) && ScopesOnce(lib, root)
    ensures Once(AllSites(lib, root))
  {
    RootSitesOnce(lib, root, |root|);
    KeptSitesOnce(lib, root, |root|);
    forall s | s in RootSites(lib, root, |root|)
      ensures s !in KeptSites(root, |root|)
    {
      RootSitesAre(lib, root, |root|, s);
      KeptSitesAre(lib, root, |root|, s);
    }
    OnceAppend(RootSites(lib, root, |root|), KeptSites(root, |root|));
  }

  /** A component keeps its type; at the root it keeps its name, and inside a
      definition it is called after the definition, the instances on the way and itself. */
  lemma ComponentNamed(lib: Library, root: seq<Element>, i: nat)
    requires RootFits(lib, root) && i < |FlatNetlist(lib, root)|
    ensures i < |AllSites(lib, root)|
    ensures var s, d := AllSites(lib, root)[i], FlatNetlist(lib, root)[i];
      && IsSite(lib, root, s)
      && var e := Scope(root, s.fs)[s.k];
         && d.typ == e.typ && d.typ != "Sub"
         && d.instance == if s.fs == [] then e.instance else s.fs[|s.fs| - 1].t.name + "." + (Way(s.fs) + e.instance)
  {
    NetlistIsHierarchy(lib, root);
    var s := AllSites(lib, root)[i];
    assert s in AllSites(lib, root) && ComesFrom(root, FlatNetlist(lib, root)[i], s);
    if s.fs != [] { InnerName(s.fs, Scope(root, s.fs)[s.k].instance); }
  }

  // ----------------------------------------------------------- the terminals

  /** The net of the hierarchy that terminal p of a site is written as. */
  ghost function TerminalNet(root: seq<Element>, s: Site, p: nat): Net
    requires s.k < |Scope(root, s.fs)| && p < |Scope(root, s.fs)[s.k].nodes|
  {
    Net(s.fs, Scope(root, s.fs)[s.k].nodes[p])
  }

  ghost predicate IsTerminal(ds: seq<Component>, i: nat, p: nat) { i < |ds| && p < |ds[i].nodes| }

  lemma TerminalResolved(lib: Library, root: seq<Element>, i: nat, p: nat)
    requires RootFits(lib, root) && IsTerminal(FlatNetlist(lib, root), i, p)
    ensures i < |AllSites(lib, root)|
    ensures var s := AllSites(lib, root)[i];
      && IsSite(lib, root, s) && Framed(s.fs) && p < |Scope(root, s.fs)[s.k].nodes|
      && FlatNetlist(lib, root)[i].nodes[p] == Resolve(s.fs, Scope(root, s.fs)[s.k].nodes[p])
  {
    NetlistIsHierarchy(lib, root);
    var s := AllSites(lib, root)[i];
    assert s in AllSites(lib, root) && ComesFrom(root, FlatNetlist(lib, root)[i], s);
  }

  /** Flattening preserves connectivity: two terminals of the expanded netlist have
      the same node exactly when they are joined in the hierarchy. */
  lemma TerminalsNamedAlikeIffJoined(lib: Library, root: seq<Element>, i: nat, p: nat, j: nat, q: nat)
    requires RootFits(lib, root) && Tidy(lib, root) && PortsDistinct(lib)
    requires IsTerminal(FlatNetlist(lib, root), i, p) && IsTerminal(FlatNetlist(lib, root), j, q)
    ensures i < |AllSites(lib, root)| && j < |AllSites(lib, root)|
    ensures var s, t := AllSites(lib, root)[i], AllSites(lib, root)[j];
      && s.k < |Scope(root, s.fs)| && p < |Scope(root, s.fs)[s.k].nodes|
      && t.k < |Scope(root, t.fs)| && q < |Scope(root, t.fs)[t.k].nodes|
      && (FlatNetlist(lib, root)[i].nodes[p] == FlatNetlist(lib, root)[j].nodes[q]
          <==> Joined(lib, root, TerminalNet(root, s, p), TerminalNet(root, t, q)))
  {
    TerminalResolved(lib, root, i, p);
    TerminalResolved(lib, root, j, q);
    var s, t := AllSites(lib, root)[i], AllSites(lib, root)[j];
    var a, b := TerminalNet(root, s, p), TerminalNet(root, t, q);
    assert SafeNet(a) by { if s.fs == [] { assert root[s.k] in root && a.n in root[s.k].nodes; } }
    assert SafeNet(b) by { if t.fs == [] { assert root[t.k] in root && b.n in root[t.k].nodes; } }
    SameNameIffJoined(lib, root, a, b);
  }
}
