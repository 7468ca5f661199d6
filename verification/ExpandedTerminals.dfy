/** The netlist that the expansion leaves on the heap, terminal by terminal. */
module ExpandedTerminals {
  import opened Connectivity
  import opened ExpandedNetlist
  import opened Expansion
  import opened Flattening
  import opened InnerNames
  import opened Netlist
  import opened NetlistTerminals
  import opened Options

  /** Terminal p of component i: the copies come first, then the elements kept. */
  ghost predicate InNetlist(copies: seq<Copy>, kept: seq<Definition>, i: nat, p: nat) {
    if i < |copies| then p < |copies[i].nodes| else i < |copies| + |kept| && p < |kept[i - |copies|].nodes|
  }

  ghost function TerminalName(copies: seq<Copy>, kept: seq<Definition>, i: nat, p: nat): Option<string>
    requires InNetlist(copies, kept, i, p)
    reads set c, n | c in copies && n in c.nodes :: n
  {
    if i < |copies| then
      assert copies[i] in copies && copies[i].nodes[p] in copies[i].nodes;
      copies[i].nodes[p].node
    else
      Some(kept[i - |copies|].nodes[p].node)
  }

  /** The elements kept are the components of the root. */
  lemma {:induction false} KeptAre(root: seq<Definition>)
    ensures var ds := KeptComponents(ElementsOf(root), |root|);
      && |ds| == |Kept(root)|
      && forall i | 0 <= i < |ds| :: ds[i].nodes == NodeNames(Kept(root)[i].nodes)
  {
    if root != [] {
      var n := |root| - 1;
      KeptAre(root[..n]);
      assert ElementsOf(root[..n]) == ElementsOf(root)[..n];
      KeptPrefix(ElementsOf(root), n, n);
    }
  }

  lemma {:induction false} KeptPrefix(elements: seq<Element>, n: nat, k: nat)
    requires k <= n <= |elements|
    ensures KeptComponents(elements[..n], k) == KeptComponents(elements, k)
  {
    if k > 0 { KeptPrefix(elements, n, k - 1); }
  }

  ghost predicate Result(ds: seq<Definition>, root: seq<Definition>, copies: seq<Copy>, kept: seq<Definition>)
    requires RootFits(LibraryOf(ds), ElementsOf(root))
    reads set c, n | c in copies && n in c.nodes :: n
  {
    Values(copies) == AllNamed(RootLeaves(LibraryOf(ds), ElementsOf(root), |root|)) && kept == Kept(root)
  }

  /** The terminals on the heap are those of the expanded netlist. */
  lemma TerminalsAre(ds: seq<Definition>, root: seq<Definition>, copies: seq<Copy>, kept: seq<Definition>, i: nat, p: nat)
    requires RootFits(LibraryOf(ds), ElementsOf(root)) && Result(ds, root, copies, kept) && InNetlist(copies, kept, i, p)
    ensures var flat := FlatNetlist(LibraryOf(ds), ElementsOf(root));
      IsTerminal(flat, i, p) && TerminalName(copies, kept, i, p) == Some(flat[i].nodes[p])
  {
    var leaves := RootLeaves(LibraryOf(ds), ElementsOf(root), |root|);
    KeptAre(root);
    assert |Values(copies)| == |copies| == |leaves|;
    if i < |copies| {
      assert Values(copies)[i] == CopiedOf(copies[i]) == AllNamed(leaves)[i];
      assert Terminals(copies[i].nodes) == NamedNodes(leaves[i].nodes);
      assert Terminals(copies[i].nodes)[p] == TerminalOf(copies[i].nodes[p]) == Named(leaves[i].nodes[p]);
    }
  }

  /** The place in the hierarchy that a terminal of the netlist comes from. */
  ghost function Origin(ds: seq<Definition>, root: seq<Definition>, i: nat, p: nat): Net
    requires RootFits(LibraryOf(ds), ElementsOf(root))
    requires IsTerminal(FlatNetlist(LibraryOf(ds), ElementsOf(root)), i, p)
  {
    var lib, elements := LibraryOf(ds), ElementsOf(root);
    TerminalResolved(lib, elements, i, p);
    TerminalNet(elements, AllSites(lib, elements)[i], p)
  }

  ghost predicate SameNode(copies: seq<Copy>, kept: seq<Definition>, i: nat, p: nat, j: nat, q: nat)
    requires InNetlist(copies, kept, i, p) && InNetlist(copies, kept, j, q)
    reads set c, n | c in copies && n in c.nodes :: n
  {
    TerminalName(copies, kept, i, p) == TerminalName(copies, kept, j, q)
  }

  ghost predicate SameOrigin(ds: seq<Definition>, root: seq<Definition>, i: nat, p: nat, j: nat, q: nat)
    requires RootFits(LibraryOf(ds), ElementsOf(root))
  {
    var lib, elements := LibraryOf(ds), ElementsOf(root);
    && IsTerminal(FlatNetlist(lib, elements), i, p) && IsTerminal(FlatNetlist(lib, elements), j, q)
    && Joined(lib, elements, Origin(ds, root, i, p), Origin(ds, root, j, q))
  }

  /** A terminal at the root keeps the node it is written with.  Inside a definition
      so do ground and global nodes, and every other node that is no port is called
      after the definition, the instances on the way and itself. */
  ghost predicate NamedAsWritten(ds: seq<Definition>, root: seq<Definition>, copies: seq<Copy>, kept: seq<Definition>, i: nat, p: nat)
    requires RootFits(LibraryOf(ds), ElementsOf(root)) && InNetlist(copies, kept, i, p)
    reads set c, n | c in copies && n in c.nodes :: n
  {
    && IsTerminal(FlatNetlist(LibraryOf(ds), ElementsOf(root)), i, p)
    && var a, name := Origin(ds, root, i, p), TerminalName(copies, kept, i, p);
       if a.fs == [] then name == Some(a.n)
       else
         var t := a.fs[|a.fs| - 1].t;
         a.n !in t.ports ==>
           name == Some(if a.n == "gnd" || (a.n != "" && a.n[|a.n| - 1] == '!') then a.n else t.name + "." + (Way(a.fs) + a.n))
  }

  lemma TerminalsNamed(ds: seq<Definition>, root: seq<Definition>, copies: seq<Copy>, kept: seq<Definition>, i: nat, p: nat)
    requires RootFits(LibraryOf(ds), ElementsOf(root)) && Result(ds, root, copies, kept) && InNetlist(copies, kept, i, p)
    ensures NamedAsWritten(ds, root, copies, kept, i, p)
  {
    TerminalsAre(ds, root, copies, kept, i, p);
    TerminalResolved(LibraryOf(ds), ElementsOf(root), i, p);
    var a := Origin(ds, root, i, p);
    if a.fs != [] && a.n !in a.fs[|a.fs| - 1].t.ports { ResolvedName(a.fs, a.n); }
  }

  /** Expands the root and keeps connectivity: every terminal of the resulting
      netlist has a node, and two have the same one exactly when their places in
      the hierarchy are joined. */
  method ExpandNetlist(ds: seq<Definition>, root: seq<Definition>) returns (copies: seq<Copy>, kept: seq<Definition>)
    requires Owned(ds) && Clean(Idle(ds, []))
    requires RootFits(LibraryOf(ds), ElementsOf(root)) && Tidy(LibraryOf(ds), ElementsOf(root)) && PortsDistinct(LibraryOf(ds))
    modifies Idle(ds, [])
    ensures Result(ds, root, copies, kept) && Clean(Idle(ds, []))
    ensures forall i, p | InNetlist(copies, kept, i, p) :: TerminalName(copies, kept, i, p).Some?
    ensures forall i, p | InNetlist(copies, kept, i, p) :: NamedAsWritten(ds, root, copies, kept, i, p)
    ensures forall i, p, j, q | InNetlist(copies, kept, i, p) && InNetlist(copies, kept, j, q) ::
      SameNode(copies, kept, i, p, j, q) <==> SameOrigin(ds, root, i, p, j, q)
  {
    var expander := new Expander(ds);
    copies, kept := expander.ExpandSubcircuits(root);
    hide Clean, RootFits, Tidy, PortsDistinct, Owned;
    forall i, p | InNetlist(copies, kept, i, p)
      ensures TerminalName(copies, kept, i, p).Some?
    {
      TerminalsAre(ds, root, copies, kept, i, p);
    }
    forall i, p | InNetlist(copies, kept, i, p)
      ensures NamedAsWritten(ds, root, copies, kept, i, p)
    {
      TerminalsNamed(ds, root, copies, kept, i, p);
    }
    forall i, p, j, q | InNetlist(copies, kept, i, p) && InNetlist(copies, kept, j, q)
      ensures SameNode(copies, kept, i, p, j, q) <==> SameOrigin(ds, root, i, p, j, q)
    {
      ExpandedAlike(ds, root, copies, kept, i, p, j, q);
    }
  }

  lemma ExpandedAlike(ds: seq<Definition>, root: seq<Definition>, copies: seq<Copy>, kept: seq<Definition>, i: nat, p: nat, j: nat, q: nat)
    requires RootFits(LibraryOf(ds), ElementsOf(root)) && Tidy(LibraryOf(ds), ElementsOf(root)) && PortsDistinct(LibraryOf(ds))
    requires Result(ds, root, copies, kept) && InNetlist(copies, kept, i, p) && InNetlist(copies, kept, j, q)
    ensures SameNode(copies, kept, i, p, j, q) <==> SameOrigin(ds, root, i, p, j, q)
  {
    TerminalsAre(ds, root, copies, kept, i, p);
    TerminalsAre(ds, root, copies, kept, j, q);
    TerminalsNamedAlikeIffJoined(LibraryOf(ds), ElementsOf(root), i, p, j, q);
  }
}
