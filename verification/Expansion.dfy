/** The expansion of subcircuits as the checker performs it: definitions are
    shared templates whose nodes carry translation marks while an instance is being
    copied; the copies' outer nodes stay blank until the next level up. */
module Expansion {
  import opened ExpandedNetlist
  import opened Flattening
  import opened Netlist
  import opened Options

  /** A node of a definition, with the marks of the instance being copied. */
  class Node {
    const node: string
    var xlate: Option<string>
    var xlatenr: nat

    constructor (node: string)
      ensures this.node == node && xlate == None && xlatenr == 0
    {
      this.node := node;
      xlate, xlatenr := None, 0;
    }
  }

  /** A line of the netlist, or a subcircuit definition with its element list. */
  class Definition {
    const typ: string
    const instance: string
    const nodes: seq<Node>
    const sub: seq<Definition>
    const ref: Option<string>

    constructor (typ: string, instance: string, nodes: seq<Node>, sub: seq<Definition>, ref: Option<string>)
      ensures this.typ == typ && this.instance == instance && this.nodes == nodes && this.sub == sub && this.ref == ref
    {
      this.typ, this.instance, this.nodes, this.sub, this.ref := typ, instance, nodes, sub, ref;
    }
  }

  /** A node of a copy; blank nodes keep the number of their port. */
  class CopyNode {
    var node: Option<string>
    var xlatenr: nat

    constructor (node: Option<string>, xlatenr: nat)
      ensures this.node == node && this.xlatenr == xlatenr
    {
      this.node, this.xlatenr := node, xlatenr;
    }
  }

  class Copy {
    const typ: string
    const instance: string
    const nodes: seq<CopyNode>

    constructor (typ: string, instance: string, nodes: seq<CopyNode>)
      ensures this.typ == typ && this.instance == instance && this.nodes == nodes
    {
      this.typ, this.instance, this.nodes := typ, instance, nodes;
    }
  }

  // ------------------------------------------------------- abstract values

  function NodeNames(nodes: seq<Node>): seq<string> {
    seq(|nodes|, i requires 0 <= i < |nodes| => nodes[i].node)
  }

  function ElementOf(d: Definition): Element {
    Element(d.typ, d.instance, NodeNames(d.nodes), d.ref)
  }

  function TemplateOf(d: Definition): Template {
    Template(d.instance, NodeNames(d.nodes), seq(|d.sub|, i requires 0 <= i < |d.sub| => ElementOf(d.sub[i])))
  }

  function LibraryOf(ds: seq<Definition>): Library {
    seq(|ds|, i requires 0 <= i < |ds| => TemplateOf(ds[i]))
  }

  ghost function TerminalOf(n: CopyNode): Terminal
    reads n
  {
    if n.node.Some? then Named(n.node.value) else Blank(n.xlatenr)
  }

  ghost function Terminals(nodes: seq<CopyNode>): seq<Terminal>
    reads nodes
  {
    seq(|nodes|, i requires 0 <= i < |nodes| reads nodes => TerminalOf(nodes[i]))
  }

  ghost function CopiedOf(c: Copy): Copied
    reads set n | n in c.nodes
  {
    Copied(c.typ, c.instance, Terminals(c.nodes))
  }

  ghost predicate Distinct<T>(s: seq<T>) {
    forall i, j | 0 <= i < j < |s| :: s[i] != s[j]
  }

  /** No copy shares a node with another. */
  ghost predicate Separate(cs: seq<Copy>) {
    && (forall i | 0 <= i < |cs| :: Distinct(cs[i].nodes))
    && (forall i, j, n | 0 <= i < |cs| && 0 <= j < |cs| && n in cs[i].nodes && n in cs[j].nodes :: i == j)
  }

  /** The elements of different definitions have different nodes. */
  ghost predicate Owned(ds: seq<Definition>) {
    forall c, d, e, f, n | c in ds && d in ds && c != d && e in c.sub && f in d.sub && n in e.nodes :: n !in f.nodes
  }

  /** The nodes of the elements of the definitions that are not being copied. */
  ghost function Idle(ds: seq<Definition>, path: seq<string>): set<Node> {
    set d, e, n | d in ds && d.instance !in path && e in d.sub && n in e.nodes :: n
  }

  ghost predicate Clean(nodes: set<Node>)
    reads nodes
  {
    forall n | n in nodes :: n.xlate == None && n.xlatenr == 0
  }

  /** The marks of a node for an instance of t. */
  ghost predicate Marked(t: Definition, inst: Definition, n: Node)
    requires |inst.nodes| == |t.nodes|
    reads n
  {
    var k := PortNr(NodeNames(t.nodes), n.node);
    n.xlatenr == k && n.xlate == if k > 0 then Some(inst.nodes[k - 1].node) else None
  }

  // ------------------------------------------------------------ the marks

  /** The marks after the first i ports. */
  ghost predicate MarkedSoFar(ports: seq<string>, inst: Definition, n: Node, i: nat)
    requires i <= |ports| == |inst.nodes|
    reads n
  {
    var k := PortNr(ports[..i], n.node);
    n.xlatenr == k && n.xlate == if k > 0 then Some(inst.nodes[k - 1].node) else None
  }

  lemma LastPort(ports: seq<string>, s: string, i: nat)
    requires i < |ports|
    ensures PortNr(ports[..i + 1], s) == if ports[i] == s then i + 1 else PortNr(ports[..i], s)
  {
    assert ports[..i + 1][..i] == ports[..i];
  }

  method XlatNode(ports: seq<string>, inst: Definition, n: Node, i: nat)
    requires i < |ports| == |inst.nodes|
    requires MarkedSoFar(ports, inst, n, i) || MarkedSoFar(ports, inst, n, i + 1)
    modifies n
    ensures MarkedSoFar(ports, inst, n, i + 1)
  {
    LastPort(ports, n.node, i);
    if n.node == ports[i] {
      n.xlate := Some(inst.nodes[i].node);
      n.xlatenr := i + 1;
    }
  }

  /** Marks the nodes of an element that are the port at the given position. */
  method XlatPort(ports: seq<string>, inst: Definition, sub: Definition, i: nat)
    requires i < |ports| == |inst.nodes|
    requires forall n | n in sub.nodes :: MarkedSoFar(ports, inst, n, i)
    modifies sub.nodes
    ensures forall n | n in sub.nodes :: MarkedSoFar(ports, inst, n, i + 1)
  {
    for j := 0 to |sub.nodes|
      invariant forall n | n in sub.nodes :: MarkedSoFar(ports, inst, n, i) || MarkedSoFar(ports, inst, n, i + 1)
      invariant forall k | 0 <= k < j :: MarkedSoFar(ports, inst, sub.nodes[k], i + 1)
    {
      XlatNode(ports, inst, sub.nodes[j], i);
    }
  }

  /** Marks the nodes of an element that are ports of the definition t. */
  method XlatSubcircuitNodes(t: Definition, inst: Definition, sub: Definition)
    requires |inst.nodes| == |t.nodes|
    requires forall n | n in sub.nodes :: n.xlate == None && n.xlatenr == 0
    modifies sub.nodes
    ensures forall n | n in sub.nodes :: Marked(t, inst, n)
  {
    var ports := NodeNames(t.nodes);
    for i := 0 to |t.nodes|
      invariant forall n | n in sub.nodes :: MarkedSoFar(ports, inst, n, i)
    {
      XlatPort(ports, inst, sub, i);
    }
    assert ports[..|ports|] == ports;
  }

  method CleanupXlatNodes(sub: Definition)
    modifies sub.nodes
    ensures forall n | n in sub.nodes :: n.xlate == None && n.xlatenr == 0
  {
    for j := 0 to |sub.nodes|
      invariant forall k | 0 <= k < j :: sub.nodes[k].xlate == None && sub.nodes[k].xlatenr == 0
    {
      sub.nodes[j].xlate, sub.nodes[j].xlatenr := None, 0;
    }
  }

  // ------------------------------------------------------- names from marks

  /** The name of the node n for a copy, or None to leave it blank. */
  method NameOfNode(t: Definition, inst: Definition, n: Node, instances: seq<string>) returns (name: Option<string>)
    requires |inst.nodes| == |t.nodes| && Marked(t, inst, n)
    ensures Translate(TemplateOf(t), ElementOf(inst), instances, n.node) ==
            if name.Some? then Named(name.value) else Blank(n.xlatenr)
  {
    if n.xlate.Some? {
      name := if instances == [] then n.xlate else None;
    } else if n.node == "gnd" {
      name := Some(n.node);
    } else if |n.node| > 0 && n.node[|n.node| - 1] == '!' {
      name := Some(n.node);
    } else {
      name := Some(InternalName(t.instance, instances, inst.instance, n.node));
    }
  }

  /** New nodes for the copy of the element `sub`. */
  method CopySubcircuitNodes(t: Definition, inst: Definition, sub: Definition, instances: seq<string>) returns (nodes: seq<CopyNode>)
    requires |inst.nodes| == |t.nodes|
    requires forall n | n in sub.nodes :: Marked(t, inst, n)
    ensures forall n | n in nodes :: fresh(n)
    ensures Distinct(nodes)
    ensures Terminals(nodes) == TranslateAll(TemplateOf(t), ElementOf(inst), instances, NodeNames(sub.nodes))
  {
    nodes := [];
    for j := 0 to |sub.nodes|
      invariant |nodes| == j && Distinct(nodes) && forall n | n in nodes :: fresh(n)
      invariant forall k | 0 <= k < j ::
        TerminalOf(nodes[k]) == Translate(TemplateOf(t), ElementOf(inst), instances, sub.nodes[k].node)
    {
      var name := NameOfNode(t, inst, sub.nodes[j], instances);
      var n := new CopyNode(name, sub.nodes[j].xlatenr);
      nodes := nodes + [n];
    }
  }

  ghost predicate BlanksWithin(c: Copied, k: nat) {
    forall i | 0 <= i < |c.nodes| && c.nodes[i].Blank? :: 0 < c.nodes[i].nr <= k
  }

  ghost predicate AllWithin(cs: seq<Copied>, k: nat) {
    forall c | c in cs :: BlanksWithin(c, k)
  }

  method FillCopyNode(t: Definition, inst: Definition, sub: Definition, n: CopyNode, instances: seq<string>)
    requires |inst.nodes| == |t.nodes|
    requires forall m | m in sub.nodes :: Marked(t, inst, m)
    requires TerminalOf(n).Blank? ==> 0 < n.xlatenr <= |sub.nodes|
    modifies n
    ensures TerminalOf(n) == FillNode(TemplateOf(t), ElementOf(inst), instances, ElementOf(sub), old(TerminalOf(n)))
  {
    if n.node == None {
      var m := sub.nodes[n.xlatenr - 1];
      var name := NameOfNode(t, inst, m, instances);
      n.xlatenr := m.xlatenr;
      n.node := name;
    }
  }

  /** Names the blank nodes of a copy made one level down, for the element `sub`. */
  method CopyCircuitNodes(t: Definition, inst: Definition, sub: Definition, copy: Copy, instances: seq<string>)
    requires |inst.nodes| == |t.nodes| && Distinct(copy.nodes)
    requires forall n | n in sub.nodes :: Marked(t, inst, n)
    requires BlanksWithin(CopiedOf(copy), |sub.nodes|)
    modifies copy.nodes
    ensures CopiedOf(copy) == Fill(TemplateOf(t), ElementOf(inst), instances, ElementOf(sub), old(CopiedOf(copy)))
  {
    ghost var before := CopiedOf(copy);
    for j := 0 to |copy.nodes|
      invariant forall k | j <= k < |copy.nodes| :: TerminalOf(copy.nodes[k]) == before.nodes[k]
      invariant forall k | 0 <= k < j ::
        TerminalOf(copy.nodes[k]) == FillNode(TemplateOf(t), ElementOf(inst), instances, ElementOf(sub), before.nodes[k])
    {
      assert TerminalOf(copy.nodes[j]) == before.nodes[j];
      FillCopyNode(t, inst, sub, copy.nodes[j], instances);
    }
  }

  // ------------------------------------------------------------- the copies

  ghost function NodesOf(cs: seq<Copy>): set<CopyNode> {
    set c, n | c in cs && n in c.nodes :: n
  }

  /** What the copies say. */
  ghost function Values(cs: seq<Copy>): seq<Copied>
    reads NodesOf(cs)
  {
    seq(|cs|, i requires 0 <= i < |cs| reads NodesOf(cs) => assert cs[i] in cs; CopiedOf(cs[i]))
  }

  /** Names the blank nodes of all the copies made for the element `sub`. */
  method CopyAllCircuitNodes(t: Definition, inst: Definition, sub: Definition, copies: seq<Copy>, instances: seq<string>)
    requires |inst.nodes| == |t.nodes| && Separate(copies)
    requires forall n | n in sub.nodes :: Marked(t, inst, n)
    requires AllWithin(Values(copies), |sub.nodes|)
    modifies NodesOf(copies)
    ensures Values(copies) == FillAll(TemplateOf(t), ElementOf(inst), instances, ElementOf(sub), old(Values(copies)))
  {
    ghost var before := Values(copies);
    for j := 0 to |copies|
      invariant forall k | j <= k < |copies| :: CopiedOf(copies[k]) == before[k]
      invariant forall k | 0 <= k < j ::
        CopiedOf(copies[k]) == Fill(TemplateOf(t), ElementOf(inst), instances, ElementOf(sub), before[k])
    {
      assert before[j] in before;
      assert copies[j] in copies && forall n | n in copies[j].nodes :: n in NodesOf(copies);
      CopyCircuitNodes(t, inst, sub, copies[j], instances);
    }
  }

  lemma FillBlanks(t: Template, inst: Element, instances: seq<string>, e: Element, cs: seq<Copied>)
    requires |inst.nodes| == |t.ports| && AllWithin(cs, |e.nodes|)
    ensures AllWithin(FillAll(t, inst, instances, e, cs), |inst.nodes|)
  {
    forall c | c in FillAll(t, inst, instances, e, cs)
      ensures BlanksWithin(c, |inst.nodes|)
    {
      var i :| 0 <= i < |cs| && c == Fill(t, inst, instances, e, cs[i]);
      assert BlanksWithin(cs[i], |e.nodes|);
    }
  }

  lemma WithinAppend(a: seq<Copied>, b: seq<Copied>, k: nat)
    requires AllWithin(a, k) && AllWithin(b, k)
    ensures AllWithin(a + b, k)
  {
  }

  lemma NothingWithin(k: nat)
    ensures AllWithin([], k)
  {
  }

  lemma TranslatedWithin(t: Template, inst: Element, instances: seq<string>, e: Element, name: string)
    requires |inst.nodes| == |t.ports|
    ensures AllWithin([Copied(e.typ, name, TranslateAll(t, inst, instances, e.nodes))], |inst.nodes|)
  {
  }

  /** Blank nodes of the copies made for an instance number one of its nodes. */
  lemma {:induction false} CopiesBlank(lib: Library, path: seq<string>, t: Template, inst: Element, instances: seq<string>, k: nat)
    requires Checked(lib) && Find(lib, t.name) == Some(t) && Sound(lib, path, t.name)
    requires |inst.nodes| == |t.ports| && k <= |t.elements|
    ensures AllWithin(Copies(lib, path, t, inst, instances, k), |inst.nodes|)
    decreases Left(lib, path), k
  {
    hide Copies, AllWithin, FillAll, TranslateAll, InternalName, Checked, Sound, Left, Find;
    if k == 0 {
      CopiesEnd(lib, path, t, inst, instances, k);
      NothingWithin(|inst.nodes|);
    } else {
      var e, rest := t.elements[k - 1], Copies(lib, path, t, inst, instances, k - 1);
      CopiesBlank(lib, path, t, inst, instances, k - 1);
      if e.IsSub() {
        CopiesStep(lib, path, t, inst, instances, k);
        var sub := Find(lib, e.ref.value).value;
        var cs := Copies(lib, path + [t.name], sub, e, instances + [inst.instance], |sub.elements|);
        CopiesBlank(lib, path + [t.name], sub, e, instances + [inst.instance], |sub.elements|);
        FillBlanks(t, inst, instances, e, cs);
        WithinAppend(FillAll(t, inst, instances, e, cs), rest, |inst.nodes|);
      } else {
        CopiesEnd(lib, path, t, inst, instances, k);
        var name := InternalName(t.name, instances, inst.instance, e.instance);
        TranslatedWithin(t, inst, instances, e, name);
        WithinAppend([Copied(e.typ, name, TranslateAll(t, inst, instances, e.nodes))], rest, |inst.nodes|);
      }
    }
  }

  // ---------------------------------------------------------- the recursion

  /** The first definition of the given name. */
  method FindSubcircuit(ds: seq<Definition>, name: string) returns (i: nat)
    requires Find(LibraryOf(ds), name).Some?
    ensures i < |ds| && Find(LibraryOf(ds), name) == Some(TemplateOf(ds[i])) && ds[i].instance == name
  {
    i := 0;
    assert LibraryOf(ds)[0..] == LibraryOf(ds);
    while ds[i].instance != name
      invariant i < |ds| && Find(LibraryOf(ds), name) == Find(LibraryOf(ds)[i..], name)
      decreases |ds| - i
    {
      i := i + 1;
      assert LibraryOf(ds)[i - 1..][1..] == LibraryOf(ds)[i..];
    }
  }

  /** The definition d is the one its name stands for. */
  ghost predicate Known(ds: seq<Definition>, d: Definition) {
    d in ds && Find(LibraryOf(ds), d.instance) == Some(TemplateOf(d))
  }

  ghost predicate Ready(ds: seq<Definition>, path: seq<string>, t: Definition, inst: Definition) {
    && Owned(ds) && Checked(LibraryOf(ds)) && Known(ds, t)
    && Sound(LibraryOf(ds), path, t.instance) && |inst.nodes| == |t.nodes|
  }

  ghost function CopiesOf(ds: seq<Definition>, path: seq<string>, t: Definition, inst: Definition, instances: seq<string>, k: nat): seq<Copied>
    requires Ready(ds, path, t, inst) && k <= |t.sub|
  {
    Copies(LibraryOf(ds), path, TemplateOf(t), ElementOf(inst), instances, k)
  }

  lemma IdleElement(ds: seq<Definition>, path: seq<string>, t: Definition, inst: Definition, def: Definition)
    requires Ready(ds, path, t, inst) && def in t.sub
    ensures forall n | n in def.nodes :: n in Idle(ds, path) && n !in Idle(ds, path + [t.instance])
    ensures Idle(ds, path + [t.instance]) <= Idle(ds, path)
  {
  }

  /** One more element's copies in front of the ones made so far. */
  ghost predicate Adds(ds: seq<Definition>, path: seq<string>, t: Definition, inst: Definition, instances: seq<string>, k: nat, cs: seq<Copied>)
    requires Ready(ds, path, t, inst) && k < |t.sub|
  {
    CopiesOf(ds, path, t, inst, instances, k + 1) == cs + CopiesOf(ds, path, t, inst, instances, k)
  }

  lemma AddsLeaf(ds: seq<Definition>, path: seq<string>, t: Definition, inst: Definition, instances: seq<string>, k: nat, c: Copied)
    requires Ready(ds, path, t, inst) && k < |t.sub| && t.sub[k].typ != "Sub"
    requires c == Copied(t.sub[k].typ, InternalName(t.instance, instances, inst.instance, t.sub[k].instance),
                         TranslateAll(TemplateOf(t), ElementOf(inst), instances, NodeNames(t.sub[k].nodes)))
    ensures Adds(ds, path, t, inst, instances, k, [c])
  {
    assert TemplateOf(t).elements[k] == ElementOf(t.sub[k]);
  }

  /** An instance inside t refers to a definition that is ready one level down. */
  lemma ReadyBelow(ds: seq<Definition>, path: seq<string>, t: Definition, inst: Definition, k: nat, sub: Definition)
    requires Ready(ds, path, t, inst) && k < |t.sub| && t.sub[k].typ == "Sub" && t.sub[k].ref.Some?
    requires Known(ds, sub) && sub.instance == t.sub[k].ref.value
    ensures Ready(ds, path + [t.instance], sub, t.sub[k])
    ensures Left(LibraryOf(ds), path + [t.instance]) < Left(LibraryOf(ds), path)
  {
    var e := TemplateOf(t).elements[k];
    assert e == ElementOf(t.sub[k]) && e in TemplateOf(t).elements && Fits(LibraryOf(ds), e);
    LeftShrinks(LibraryOf(ds), path, t.instance);
    assert Sound(LibraryOf(ds), path + [t.instance], e.ref.value);
  }

  lemma ReferenceKnown(ds: seq<Definition>, path: seq<string>, t: Definition, inst: Definition, k: nat)
    requires Ready(ds, path, t, inst) && k < |t.sub| && t.sub[k].typ == "Sub"
    ensures t.sub[k].ref.Some? && Find(LibraryOf(ds), t.sub[k].ref.value).Some?
  {
    var e := TemplateOf(t).elements[k];
    assert e == ElementOf(t.sub[k]) && e in TemplateOf(t).elements && Fits(LibraryOf(ds), e);
    LeftShrinks(LibraryOf(ds), path, t.instance);
    assert Sound(LibraryOf(ds), path + [t.instance], e.ref.value);
  }

  lemma AddsSub(ds: seq<Definition>, path: seq<string>, t: Definition, inst: Definition, instances: seq<string>, k: nat, sub: Definition, cs: seq<Copied>)
    requires Ready(ds, path, t, inst) && k < |t.sub| && t.sub[k].typ == "Sub" && t.sub[k].ref.Some?
    requires Known(ds, sub) && sub.instance == t.sub[k].ref.value
    requires Ready(ds, path + [t.instance], sub, t.sub[k])
    requires cs == CopiesOf(ds, path + [t.instance], sub, t.sub[k], instances + [inst.instance], |sub.sub|)
    ensures Adds(ds, path, t, inst, instances, k, FillAll(TemplateOf(t), ElementOf(inst), instances, ElementOf(t.sub[k]), cs))
    ensures AllWithin(cs, |t.sub[k].nodes|)
  {
    assert TemplateOf(t).elements[k] == ElementOf(t.sub[k]);
    CopiesBlank(LibraryOf(ds), path + [t.instance], TemplateOf(sub), ElementOf(t.sub[k]), instances + [inst.instance], |sub.sub|);
  }

  lemma SeparateChain(copies: seq<Copy>, root: seq<Copy>)
    requires Separate(copies) && Separate(root) && NodesOf(copies) !! NodesOf(root)
    ensures Separate(copies + root) && NodesOf(copies + root) == NodesOf(copies) + NodesOf(root)
    ensures Values(copies + root) == Values(copies) + Values(root)
  {
    var all, m := copies + root, |copies|;
    forall i, j, n | 0 <= i < |all| && 0 <= j < |all| && n in all[i].nodes && n in all[j].nodes
      ensures i == j
    {
      assert i < m ==> copies[i] in copies && n in NodesOf(copies);
      assert i >= m ==> root[i - m] in root && n in NodesOf(root);
      assert j < m ==> copies[j] in copies && n in NodesOf(copies);
      assert j >= m ==> root[j - m] in root && n in NodesOf(root);
    }
    forall n | n in NodesOf(copies) + NodesOf(root)
      ensures n in NodesOf(all)
    {
      if n in NodesOf(copies) {
        var c :| c in copies && n in c.nodes;
        assert c in all;
      } else {
        var c :| c in root && n in c.nodes;
        assert c in all;
      }
    }
  }

  function ElementsOf(root: seq<Definition>): seq<Element> {
    seq(|root|, i requires 0 <= i < |root| => ElementOf(root[i]))
  }

  /** The components of the root circuit itself. */
  function Kept(root: seq<Definition>): seq<Definition> {
    if root == [] then []
    else
      var n := |root| - 1;
      if root[n].typ == "Sub" then Kept(root[..n]) else Kept(root[..n]) + [root[n]]
  }

  lemma RootInstance(ds: seq<Definition>, root: seq<Definition>, k: nat)
    requires RootFits(LibraryOf(ds), ElementsOf(root)) && k < |root| && root[k].typ == "Sub"
    ensures root[k].ref.Some? && Find(LibraryOf(ds), root[k].ref.value).Some?
  {
    assert ElementsOf(root)[k] in ElementsOf(root);
  }

  /** The copies for an instance of the root come in front of those made so far. */
  lemma RootReady(ds: seq<Definition>, root: seq<Definition>, k: nat, sub: Definition)
    requires Owned(ds) && RootFits(LibraryOf(ds), ElementsOf(root)) && k < |root| && root[k].typ == "Sub" && root[k].ref.Some?
    requires Known(ds, sub) && sub.instance == root[k].ref.value
    ensures Ready(ds, [], sub, root[k])
    ensures AllNamed(RootLeaves(LibraryOf(ds), ElementsOf(root), k + 1)) ==
            CopiesOf(ds, [], sub, root[k], [], |sub.sub|) + AllNamed(RootLeaves(LibraryOf(ds), ElementsOf(root), k))
  {
    var e := ElementsOf(root)[k];
    assert e == ElementOf(root[k]) && e in ElementsOf(root);
    TopCopies(LibraryOf(ds), e);
    AllNamedAppend(LeavesOf(LibraryOf(ds), e), RootLeaves(LibraryOf(ds), ElementsOf(root), k));
  }

  lemma RootStart(ds: seq<Definition>, root: seq<Definition>)
    requires RootFits(LibraryOf(ds), ElementsOf(root))
    ensures Separate([]) && NodesOf([]) == {} && Kept(root[..0]) == [] && |ElementsOf(root)| == |root|
    ensures Values([]) == AllNamed(RootLeaves(LibraryOf(ds), ElementsOf(root), 0))
  {
  }

  lemma RootStep(ds: seq<Definition>, root: seq<Definition>, k: nat)
    requires RootFits(LibraryOf(ds), ElementsOf(root)) && k < |root|
    ensures Kept(root[..k + 1]) == if root[k].typ == "Sub" then Kept(root[..k]) else Kept(root[..k]) + [root[k]]
    ensures root[k].typ != "Sub" ==>
      RootLeaves(LibraryOf(ds), ElementsOf(root), k + 1) == RootLeaves(LibraryOf(ds), ElementsOf(root), k)
  {
    assert root[..k + 1][..k] == root[..k];
    assert ElementsOf(root)[k] == ElementOf(root[k]);
  }

  class Expander {
    const ds: seq<Definition>
    var instances: seq<string>

    constructor (ds: seq<Definition>)
      ensures this.ds == ds && instances == []
    {
      this.ds, instances := ds, [];
    }

    /** The copies of the elements of t for the instance `inst`. */
    method CopySubcircuits(t: Definition, inst: Definition, ghost path: seq<string>) returns (root: seq<Copy>)
      requires Ready(ds, path, t, inst) && Clean(Idle(ds, path))
      modifies this, Idle(ds, path)
      ensures instances == old(instances) && Clean(Idle(ds, path))
      ensures Separate(root) && fresh(NodesOf(root))
      ensures Values(root) == CopiesOf(ds, path, t, inst, instances, |t.sub|)
      decreases Left(LibraryOf(ds), path), 3
    {
      hide Ready, Clean, Separate, Copies;
      root := NoCopies(t, inst, path);
      for k := 0 to |t.sub|
        invariant instances == old(instances) && Clean(Idle(ds, path))
        invariant Separate(root) && fresh(NodesOf(root))
        invariant Values(root) == CopiesOf(ds, path, t, inst, instances, k)
      {
        root := AddElement(t, inst, k, path, root);
      }
    }

    method NoCopies(t: Definition, inst: Definition, ghost path: seq<string>) returns (root: seq<Copy>)
      requires Ready(ds, path, t, inst)
      ensures root == [] && Separate(root) && NodesOf(root) == {} && Values(root) == CopiesOf(ds, path, t, inst, instances, 0)
    {
      root := [];
    }

    /** Chains the copies of one more element in front. */
    method AddElement(t: Definition, inst: Definition, k: nat, ghost path: seq<string>, root: seq<Copy>) returns (all: seq<Copy>)
      requires Ready(ds, path, t, inst) && Clean(Idle(ds, path)) && k < |t.sub|
      requires Separate(root) && Values(root) == CopiesOf(ds, path, t, inst, instances, k)
      modifies this, Idle(ds, path)
      ensures instances == old(instances) && Clean(Idle(ds, path))
      ensures Separate(all) && fresh(NodesOf(all) - NodesOf(root))
      ensures Values(all) == CopiesOf(ds, path, t, inst, instances, k + 1)
      decreases Left(LibraryOf(ds), path), 2
    {
      hide Ready, Clean, Separate, Copies;
      var copies := CopyElement(t, inst, k, path);
      SeparateChain(copies, root);
      all := copies + root;
    }

    /** The copies of one element: of what its definition holds, if it is an instance itself. */
    method CopyElement(t: Definition, inst: Definition, k: nat, ghost path: seq<string>) returns (copies: seq<Copy>)
      requires Ready(ds, path, t, inst) && Clean(Idle(ds, path)) && k < |t.sub|
      modifies this, Idle(ds, path)
      ensures instances == old(instances) && Clean(Idle(ds, path))
      ensures Separate(copies) && fresh(NodesOf(copies))
      ensures Adds(ds, path, t, inst, instances, k, Values(copies))
      decreases Left(LibraryOf(ds), path), 1
    {
      hide Owned, Checked, Sound, Copies, Adds, Separate, Marked;
      var def := t.sub[k];
      IdleElement(ds, path, t, inst, def);
      XlatSubcircuitNodes(t, inst, def);
      if def.typ == "Sub" {
        copies := CopyInstance(t, inst, k, path);
      } else {
        copies := CopyLeaf(t, inst, k, path);
      }
      CleanupXlatNodes(def);
    }

    method CopyLeaf(t: Definition, inst: Definition, k: nat, ghost path: seq<string>) returns (copies: seq<Copy>)
      requires Ready(ds, path, t, inst) && k < |t.sub| && t.sub[k].typ != "Sub"
      requires forall n | n in t.sub[k].nodes :: Marked(t, inst, n)
      ensures Separate(copies) && fresh(NodesOf(copies))
      ensures Adds(ds, path, t, inst, instances, k, Values(copies))
    {
      hide Owned, Checked, Sound, Copies, Adds, Marked;
      var def := t.sub[k];
      var nodes := CopySubcircuitNodes(t, inst, def, instances);
      var copy := new Copy(def.typ, InternalName(t.instance, instances, inst.instance, def.instance), nodes);
      copies := [copy];
      AddsLeaf(ds, path, t, inst, instances, k, CopiedOf(copy));
      assert Values(copies) == [CopiedOf(copy)];
    }

    method CopyInstance(t: Definition, inst: Definition, k: nat, ghost path: seq<string>) returns (copies: seq<Copy>)
      requires Ready(ds, path, t, inst) && k < |t.sub| && t.sub[k].typ == "Sub"
      requires forall n | n in t.sub[k].nodes :: Marked(t, inst, n)
      requires Clean(Idle(ds, path + [t.instance]))
      requires forall n | n in t.sub[k].nodes :: n !in Idle(ds, path + [t.instance])
      modifies this, Idle(ds, path + [t.instance])
      ensures instances == old(instances) && Clean(Idle(ds, path + [t.instance]))
      ensures Separate(copies) && fresh(NodesOf(copies))
      ensures Adds(ds, path, t, inst, instances, k, Values(copies))
      decreases Left(LibraryOf(ds), path), 0
    {
      hide Owned, Checked, Sound, Copies, Adds, Marked, Separate, Clean, Find, Fits, LibraryOf;
      var def := t.sub[k];
      ReferenceKnown(ds, path, t, inst, k);
      var i := FindSubcircuit(ds, def.ref.value);
      ReadyBelow(ds, path, t, inst, k, ds[i]);
      var instcopy := instances;
      instances := instances + [inst.instance];
      copies := CopySubcircuits(ds[i], def, path + [t.instance]);
      AddsSub(ds, path, t, inst, instcopy, k, ds[i], Values(copies));
      CopyAllCircuitNodes(t, inst, def, copies, instcopy);
      instances := instcopy;
    }

    /** Expands the instances of the root circuit; the netlist then consists of
        the copies, followed by the components kept. */
    method ExpandSubcircuits(root: seq<Definition>) returns (copies: seq<Copy>, kept: seq<Definition>)
      requires Owned(ds) && RootFits(LibraryOf(ds), ElementsOf(root)) && Clean(Idle(ds, [])) && instances == []
      modifies this, Idle(ds, [])
      ensures Values(copies) == AllNamed(RootLeaves(LibraryOf(ds), ElementsOf(root), |root|))
      ensures kept == Kept(root)
      ensures Separate(copies) && fresh(NodesOf(copies))
      ensures Clean(Idle(ds, [])) && instances == []
    {
      hide Owned, RootFits, Clean, Separate, Kept, RootLeaves, AllNamed, Values, ElementsOf, LibraryOf, NodesOf, Idle;
      copies, kept := [], [];
      RootStart(ds, root);
      for k := 0 to |root|
        invariant instances == [] && Clean(Idle(ds, []))
        invariant Separate(copies) && fresh(NodesOf(copies))
        invariant Values(copies) == AllNamed(RootLeaves(LibraryOf(ds), ElementsOf(root), k))
        invariant kept == Kept(root[..k])
      {
        RootStep(ds, root, k);
        if root[k].typ == "Sub" {
          copies := ExpandInstance(root, k, copies);
        } else {
          kept := kept + [root[k]];
        }
      }
      assert root[..|root|] == root;
    }

    method RootSubcircuit(root: seq<Definition>, k: nat) returns (sub: Definition)
      requires Owned(ds) && RootFits(LibraryOf(ds), ElementsOf(root)) && k < |root| && root[k].typ == "Sub"
      ensures Ready(ds, [], sub, root[k])
      ensures AllNamed(RootLeaves(LibraryOf(ds), ElementsOf(root), k + 1)) ==
              CopiesOf(ds, [], sub, root[k], [], |sub.sub|) + AllNamed(RootLeaves(LibraryOf(ds), ElementsOf(root), k))
    {
      RootInstance(ds, root, k);
      var i := FindSubcircuit(ds, root[k].ref.value);
      sub := ds[i];
      RootReady(ds, root, k, sub);
    }

    method ExpandInstance(root: seq<Definition>, k: nat, copies: seq<Copy>) returns (all: seq<Copy>)
      requires Owned(ds) && RootFits(LibraryOf(ds), ElementsOf(root)) && Clean(Idle(ds, [])) && instances == []
      requires k < |root| && root[k].typ == "Sub"
      requires Separate(copies) && Values(copies) == AllNamed(RootLeaves(LibraryOf(ds), ElementsOf(root), k))
      modifies this, Idle(ds, [])
      ensures Clean(Idle(ds, [])) && instances == []
      ensures Separate(all) && fresh(NodesOf(all) - NodesOf(copies))
      ensures Values(all) == AllNamed(RootLeaves(LibraryOf(ds), ElementsOf(root), k + 1))
    {
      hide Ready, Clean, Separate, Owned, RootFits, CopiesOf, RootLeaves, AllNamed, ElementsOf;
      var sub := RootSubcircuit(root, k);
      var more := CopySubcircuits(sub, root[k], []);
      SeparateChain(more, copies);
      all := more + copies;
    }
  }
}
