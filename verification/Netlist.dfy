/** Hierarchical netlists as values: subcircuit definitions, instances, and the
    names their nodes get when the hierarchy is flattened. */
module Netlist {
  import opened Options

  /** A line of the netlist; a subcircuit instance has type "Sub" and names its
      definition in `ref`. */
  datatype Element = Element(typ: string, instance: string, nodes: seq<string>, ref: Option<string>) {
    predicate IsSub() { typ == "Sub" }
  }

  /** A subcircuit definition: its name, its ports and its elements. */
  datatype Template = Template(name: string, ports: seq<string>, elements: seq<Element>)

  type Library = seq<Template>

  predicate Defined(lib: Library, name: string) {
    exists i | 0 <= i < |lib| :: lib[i].name == name
  }

  /** The first definition of the given name. */
  function Find(lib: Library, name: string): (t: Option<Template>)
    ensures t.Some? <==> Defined(lib, name)
    ensures t.Some? ==> t.value in lib && t.value.name == name
  {
    if lib == [] then None
    else if lib[0].name == name then Some(lib[0])
    else
      var t := Find(lib[1..], name);
      assert forall i | 0 <= i < |lib| - 1 :: lib[1..][i] == lib[i + 1];
      assert t.None? ==> forall i | 0 <= i < |lib| :: i > 0 ==> lib[i] == lib[1..][i - 1];
      t
  }

  /** Of several definitions of one name it is the first. */
  lemma {:induction false} FindIsFirst(lib: Library, name: string, i: nat)
    requires i < |lib| && lib[i].name == name && forall j | 0 <= j < i :: lib[j].name != name
    ensures Find(lib, name) == Some(lib[i])
  {
    if i > 0 { FindIsFirst(lib[1..], name, i - 1); }
  }

  // ------------------------------------------------------------ node names

  /** The position, from 1 on, of the last port called n, or 0. */
  function PortNr(ports: seq<string>, n: string): (k: nat)
    ensures k <= |ports| && (k > 0 ==> ports[k - 1] == n)
    ensures forall i | k <= i < |ports| :: ports[i] != n
  {
    if ports == [] then 0
    else if ports[|ports| - 1] == n then |ports|
    else PortNr(ports[..|ports| - 1], n)
  }

  predicate IsGlobal(n: string) {
    n == "gnd" || (|n| > 0 && n[|n| - 1] == '!')
  }

  /** The given strings, separated by dots. */
  function Join(parts: seq<string>): string {
    if parts == [] then "" else if |parts| == 1 then parts[0] else parts[0] + "." + Join(parts[1..])
  }

  function InternalName(typ: string, instances: seq<string>, instance: string, node: string): string {
    Join([typ] + instances + [instance, node])
  }

  // --------------------------------------------------- two-pass translation

  /** A node of a copied element: named, or left blank for the next level up, with
      the number of the port it belongs to. */
  datatype Terminal = Named(name: string) | Blank(nr: nat)

  datatype Copied = Copied(typ: string, instance: string, nodes: seq<Terminal>)

  /** The node n of an element of t, in the instance `inst` at the given place. */
  function Translate(t: Template, inst: Element, instances: seq<string>, n: string): Terminal
    requires |inst.nodes| == |t.ports|
  {
    var k := PortNr(t.ports, n);
    if k > 0 then (if instances == [] then Named(inst.nodes[k - 1]) else Blank(k))
    else if IsGlobal(n) then Named(n)
    else Named(InternalName(t.name, instances, inst.instance, n))
  }

  function TranslateAll(t: Template, inst: Element, instances: seq<string>, nodes: seq<string>): seq<Terminal>
    requires |inst.nodes| == |t.ports|
  {
    seq(|nodes|, i requires 0 <= i < |nodes| => Translate(t, inst, instances, nodes[i]))
  }

  /** A blank node of a copy is given the name of the instance's node. */
  function FillNode(t: Template, inst: Element, instances: seq<string>, e: Element, x: Terminal): Terminal
    requires |inst.nodes| == |t.ports|
  {
    if x.Blank? && 0 < x.nr <= |e.nodes| then Translate(t, inst, instances, e.nodes[x.nr - 1]) else x
  }

  function Fill(t: Template, inst: Element, instances: seq<string>, e: Element, c: Copied): Copied
    requires |inst.nodes| == |t.ports|
  {
    c.(nodes := seq(|c.nodes|, i requires 0 <= i < |c.nodes| => FillNode(t, inst, instances, e, c.nodes[i])))
  }

  function FillAll(t: Template, inst: Element, instances: seq<string>, e: Element, cs: seq<Copied>): seq<Copied>
    requires |inst.nodes| == |t.ports|
  {
    seq(|cs|, i requires 0 <= i < |cs| => Fill(t, inst, instances, e, cs[i]))
  }
}
