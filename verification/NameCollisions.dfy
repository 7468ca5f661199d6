/** When flattening keeps connectivity: a condition on each name of the hierarchy,
    and a collision for every name that does not meet it. */
module NameCollisions {
  import opened Connectivity
  import opened ExpandedNetlist
  import opened Flattening
  import opened Netlist
  import opened Options

  // ------------------------------------------------------------- the condition

  /** Nodes at the root have safe names or those in `roots`, definitions plain names
      or those in `defs`, and instances plain names or those in `insts`. */
  ghost predicate NamesFrom(lib: Library, root: seq<Element>, roots: set<string>, defs: set<string>, insts: set<string>) {
    && InstancesFrom(root, insts) && DistinctInstances(root)
    && (forall e, n | e in root && n in e.nodes :: Safe(n) || n in roots)
    && forall t | t in lib :: InstancesFrom(t.elements, insts) && DistinctInstances(t.elements) && (Plain(t.name) || t.name in defs)
  }

  ghost predicate InstancesFrom(elements: seq<Element>, insts: set<string>) {
    forall e | e in elements && e.IsSub() :: Plain(e.instance) || e.instance in insts
  }

  /** A net of the hierarchy; one at the root has a safe name or one in `roots`. */
  ghost predicate NetOf(lib: Library, root: seq<Element>, roots: set<string>, a: Net) {
    Placed(lib, root, a.fs) && Framed(a.fs) && (a.fs == [] ==> Safe(a.n) || a.n in roots)
  }

  /** Nets of the same name are joined, in one hierarchy. */
  ghost predicate Preserved(lib: Library, root: seq<Element>, roots: set<string>) {
    forall a, b | NetOf(lib, root, roots, a) && NetOf(lib, root, roots, b) ::
      Resolve(a.fs, a.n) == Resolve(b.fs, b.n) <==> Joined(lib, root, a, b)
  }

  /** Flattening keeps connectivity in every acyclic hierarchy with such names. */
  ghost predicate Harmless(roots: set<string>, defs: set<string>, insts: set<string>) {
    forall lib, root | NamesFrom(lib, root, roots, defs, insts) && RootFits(lib, root) && PortsDistinct(lib) :: Preserved(lib, root, roots)
  }

  ghost predicate AllSafe(names: set<string>) { forall n | n in names :: Safe(n) }

  ghost predicate NoDots(names: set<string>) { forall n | n in names :: Plain(n) }

  lemma SafeNamesKept(lib: Library, root: seq<Element>, roots: set<string>, defs: set<string>, insts: set<string>)
    requires NamesFrom(lib, root, roots, defs, insts) && RootFits(lib, root) && PortsDistinct(lib)
    requires AllSafe(roots) && NoDots(defs) && NoDots(insts)
    ensures Preserved(lib, root, roots)
  {
    assert Tidy(lib, root);
    hide Tidy, NamesFrom, RootFits, PortsDistinct, Placed, Framed;
    forall a, b | NetOf(lib, root, roots, a) && NetOf(lib, root, roots, b)
      ensures Resolve(a.fs, a.n) == Resolve(b.fs, b.n) <==> Joined(lib, root, a, b)
    {
      SameNameIffJoined(lib, root, a, b);
    }
  }

  // --------------------------------------------------------- small hierarchies

  /** A definition without ports that holds one resistor. */
  function Cell(t: string, nodes: seq<string>): Template { Template(t, [], [Element("R", "R1", nodes, None)]) }

  function Use(t: string, i: string): Element { Element("Sub", i, [], Some(t)) }

  function Inside(c: Template, i: string): seq<Frame> { [Frame(c, Use(c.name, i))] }

  ghost predicate OfCells(lib: Library) {
    forall c | c in lib :: c.ports == [] && |c.elements| == 1 && !c.elements[0].IsSub()
  }

  /** The instances at the root use cells. */
  ghost predicate OfUses(lib: Library, root: seq<Element>) {
    forall e | e in root && e.IsSub() :: e.nodes == [] && e.ref.Some? && Find(lib, e.ref.value).Some?
  }

  lemma CellsFit(lib: Library, root: seq<Element>)
    requires OfCells(lib) && OfUses(lib, root)
    ensures RootFits(lib, root) && PortsDistinct(lib)
  {
    forall e | e in root && e.IsSub()
      ensures Fits(lib, e) && Sound(lib, [], e.ref.value)
    {
      var c := Find(lib, e.ref.value).value;
      assert c in lib;
      forall d | d in c.elements ensures !d.IsSub() { assert d == c.elements[0]; }
    }
    assert Checked(lib) by {
      forall t, e | t in lib && e in t.elements ensures Fits(lib, e) { assert e == t.elements[0]; }
    }
  }

  /** A node of a cell is called after the cell, its instance and itself. */
  lemma CellNode(lib: Library, root: seq<Element>, c: Template, i: string, n: string)
    requires c in lib && c.ports == [] && Find(lib, c.name) == Some(c) && Use(c.name, i) in root && !IsGlobal(n)
    ensures var fs := Inside(c, i);
      && Placed(lib, root, []) && Placed(lib, root, fs) && Framed(fs)
      && Resolve(fs, n) == Dotted(c.name, Dotted(i, n)) && Home(fs, n) == Net(fs, n)
  {
    var fs := Inside(c, i);
    assert fs[..|fs| - 1] == [];
    assert Scope(root, []) == root && FrameIn(lib, Scope(root, []), fs[0]);
    assert Placed(lib, root, fs[..|fs| - 1]);
    assert PortNr(c.ports, n) == 0;
    assert Resolve(fs, n) == Join([c.name] + [] + [i, n]);
    JoinThree(c.name, i, n);
    assert [c.name] + [] + [i, n] == [c.name, i, n];
  }

  lemma JoinThree(a: string, b: string, c: string)
    ensures Join([a, b, c]) == Dotted(a, Dotted(b, c))
  {
    assert [a, b, c][1..] == [b, c] && [b, c][1..] == [c];
    JoinDotted([b, c]);
    JoinDotted([a, b, c]);
  }

  /** Two nets of the same name with different homes. */
  lemma Collide(lib: Library, root: seq<Element>, roots: set<string>, defs: set<string>, insts: set<string>, a: Net, b: Net)
    requires NamesFrom(lib, root, roots, defs, insts) && OfCells(lib) && OfUses(lib, root)
    requires NetOf(lib, root, roots, a) && NetOf(lib, root, roots, b)
    requires Resolve(a.fs, a.n) == Resolve(b.fs, b.n) && Home(a.fs, a.n) != Home(b.fs, b.n)
    ensures !Harmless(roots, defs, insts)
  {
    CellsFit(lib, root);
    JoinedIffSameHome(lib, root, a, b);
    hide NamesFrom, RootFits, PortsDistinct, Joined, NetOf;
    assert !Preserved(lib, root, roots);
  }

  // ----------------------------------------------------------- names that collide

  lemma OneCell(roots: set<string>, defs: set<string>, insts: set<string>, c: Template, q: string, r: string)
    requires c.ports == [] && |c.elements| == 1 && !c.elements[0].IsSub() && Plain(c.name) && Plain(q) && r in roots
    ensures var lib, root := [c], [Use(c.name, q), Element("R", "R2", [r], None)];
      NamesFrom(lib, root, roots, defs, insts) && OfCells(lib) && OfUses(lib, root) && Find(lib, c.name) == Some(c)
  {
    var lib, root := [c], [Use(c.name, q), Element("R", "R2", [r], None)];
    assert Find(lib, c.name) == Some(c) by { assert lib[0] == c; }
    forall d | d in c.elements
      ensures !d.IsSub()
    {
      assert d == c.elements[0];
    }
  }

  /** A name at the root that is not safe is that of a node in some cell. */
  lemma RootNameCollides(roots: set<string>, defs: set<string>, insts: set<string>, r: string)
    requires r in roots && !Safe(r)
    ensures !Harmless(roots, defs, insts)
  {
    var p, q, n := UnsafeSplits(r);
    var c := Cell(p, [n]);
    var lib, root := [c], [Use(p, q), Element("R", "R2", [r], None)];
    OneCell(roots, defs, insts, c, q, r);
    assert c in lib && root[0] == Use(p, q);
    hide NamesFrom, OfCells, OfUses, Safe, Harmless, IsGlobal, Find, Dotted;
    CellNode(lib, root, c, q, n);
    var a, b := Net(Inside(c, q), n), Net([], r);
    hide Placed;
    assert Resolve(b.fs, r) == r && Home(b.fs, r) == b && Framed(b.fs);
    Collide(lib, root, roots, defs, insts, a, b);
  }

  lemma TwoUses(roots: set<string>, defs: set<string>, insts: set<string>, c: Template, d: Template, i: string, j: string)
    requires i != j && (Plain(i) || i in insts) && (Plain(j) || j in insts) && (c == d || c.name != d.name)
    requires c.ports == [] && |c.elements| == 1 && !c.elements[0].IsSub() && (Plain(c.name) || c.name in defs)
    requires d.ports == [] && |d.elements| == 1 && !d.elements[0].IsSub() && (Plain(d.name) || d.name in defs)
    ensures var lib, root := [c, d], [Use(c.name, i), Use(d.name, j)];
      && NamesFrom(lib, root, roots, defs, insts) && OfCells(lib) && OfUses(lib, root)
      && Find(lib, c.name) == Some(c) && Find(lib, d.name) == Some(d)
  {
    var lib, root := [c, d], [Use(c.name, i), Use(d.name, j)];
    assert lib[1..] == [d] && lib[0] == c && lib[1] == d && [d][0] == d;
    forall e | e in c.elements || e in d.elements
      ensures !e.IsSub()
    {
      assert e == c.elements[0] || e == d.elements[0];
    }
  }

  /** Two instances whose nodes n and m have the same name. */
  lemma UsesCollide(roots: set<string>, defs: set<string>, insts: set<string>, c: Template, i: string, n: string,
                    d: Template, j: string, m: string)
    requires i != j && (Plain(i) || i in insts) && (Plain(j) || j in insts) && (c == d || c.name != d.name)
    requires c.ports == [] && |c.elements| == 1 && !c.elements[0].IsSub() && (Plain(c.name) || c.name in defs)
    requires d.ports == [] && |d.elements| == 1 && !d.elements[0].IsSub() && (Plain(d.name) || d.name in defs)
    requires !IsGlobal(n) && !IsGlobal(m) && Dotted(c.name, Dotted(i, n)) == Dotted(d.name, Dotted(j, m))
    ensures !Harmless(roots, defs, insts)
  {
    var lib, root := [c, d], [Use(c.name, i), Use(d.name, j)];
    TwoUses(roots, defs, insts, c, d, i, j);
    assert c in lib && d in lib && root[0] == Use(c.name, i) && root[1] == Use(d.name, j);
    hide NamesFrom, OfCells, OfUses, Harmless, IsGlobal, Find, Dotted;
    CellNode(lib, root, c, i, n);
    CellNode(lib, root, d, j, m);
    var a, b := Net(Inside(c, i), n), Net(Inside(d, j), m);
    assert Inside(c, i)[0].inst.instance != Inside(d, j)[0].inst.instance;
    hide Placed, Resolve, Home, Inside;
    Collide(lib, root, roots, defs, insts, a, b);
  }

  /** With a dotted instance name p.q the node m of the instance is called like the
      node q.m of the instance p. */
  lemma InstanceNameCollides(roots: set<string>, defs: set<string>, insts: set<string>, x: string)
    requires x in insts && !Plain(x)
    ensures !Harmless(roots, defs, insts)
  {
    var p, q := BeforeDot(x), AfterDot(x).value;
    assert p != x;
    hide Dotted, BeforeDot, AfterDot;
    DottedNotGlobal(q, "m");
    DottedAgain(p, q, "m");
    var n := Dotted(q, "m");
    var c := Cell("T", ["m", n]);
    UsesCollide(roots, defs, insts, c, p, n, c, x, "m");
  }

  lemma {:induction false} BeforePlain(s: string)
    ensures Plain(s) ==> BeforeDot(s) == s
  {
    if s != "" && Plain(s) {
      BeforePlain(s[1..]);
      assert s == [s[0]] + s[1..];
    }
  }

  /** The name of the node m in an instance of a dotted definition, read as that of
      another node in an instance of a definition without dots. */
  lemma DefinitionSplits(t: string) returns (p: string, q: string, i: string, n: string)
    requires !Plain(t)
    ensures Dotted(t, Dotted(i, "m")) == Dotted(p, Dotted(q, n))
    ensures Plain(p) && Plain(q) && Plain(i) && q != i && p != t && !IsGlobal(n)
  {
    p := BeforeDot(t);
    var u := AfterDot(t).value;
    q := BeforeDot(u);
    i := if q == "i" then "j" else "i";
    var e := Dotted(i, "m");
    BeforePlain(u);
    DottedNotGlobal(i, "m");
    hide Dotted, BeforeDot, AfterDot, IsGlobal;
    DottedAgain(p, u, e);
    if AfterDot(u) == None {
      n := e;
    } else {
      var s := AfterDot(u).value;
      n := Dotted(s, e);
      DottedAgain(q, s, e);
      DottedNotGlobal(s, e);
    }
  }

  /** With a dotted definition name p.q.s the node m of an instance i is called like
      the node s.i.m of an instance q of the definition p. */
  lemma DefinitionNameCollides(roots: set<string>, defs: set<string>, insts: set<string>, t: string)
    requires t in defs && !Plain(t)
    ensures !Harmless(roots, defs, insts)
  {
    var p, q, i, n := DefinitionSplits(t);
    UsesCollide(roots, defs, insts, Cell(t, ["m"]), i, "m", Cell(p, [n]), q, n);
  }

  /** Flattening keeps connectivity for all acyclic hierarchies with the given names
      exactly when the names at the root are safe and those of definitions and
      instances have no dots.  The names of nodes inside definitions never matter. */
  lemma HarmlessIff(roots: set<string>, defs: set<string>, insts: set<string>)
    ensures Harmless(roots, defs, insts) <==> AllSafe(roots) && NoDots(defs) && NoDots(insts)
  {
    if AllSafe(roots) && NoDots(defs) && NoDots(insts) {
      forall lib, root | NamesFrom(lib, root, roots, defs, insts) && RootFits(lib, root) && PortsDistinct(lib)
        ensures Preserved(lib, root, roots)
      {
        SafeNamesKept(lib, root, roots, defs, insts);
      }
    } else if !AllSafe(roots) {
      var r :| r in roots && !Safe(r);
      RootNameCollides(roots, defs, insts, r);
    } else if !NoDots(defs) {
      var t :| t in defs && !Plain(t);
      DefinitionNameCollides(roots, defs, insts, t);
    } else {
      var x :| x in insts && !Plain(x);
      InstanceNameCollides(roots, defs, insts, x);
    }
  }
}
