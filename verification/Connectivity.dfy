/** Flattening preserves connectivity: two nodes of the hierarchy get the same
    name exactly when port bindings, ground and global nodes join them. */
module Connectivity {
  import opened ExpandedNetlist
  import opened Netlist
  import opened Flattening
  import opened Options

  // ----------------------------------------------------------- name printing

  predicate Plain(s: string) { '.' !in s }

  ghost predicate AllPlain(parts: seq<string>) {
    forall i | 0 <= i < |parts| :: Plain(parts[i])
  }

  ghost predicate EmptyOrDot(s: string) { s == "" || s[0] == '.' }

  lemma Overlap(p: string, r: string, q: string, s: string)
    requires p + r == q + s && |p| <= |q|
    ensures r == q[|p|..] + s
  {
    assert (p + r)[|p|..] == r;
    assert (q + s)[|p|..] == q[|p|..] + s;
  }

  lemma NotShorter(p: string, r: string, q: string, s: string)
    requires Plain(q) && EmptyOrDot(r) && p + r == q + s
    ensures |p| >= |q|
  {
    if |p| < |q| {
      Overlap(p, r, q, s);
      assert false;
    }
  }

  lemma FirstPart(p: string, r: string, q: string, s: string)
    requires Plain(p) && Plain(q) && EmptyOrDot(r) && EmptyOrDot(s) && p + r == q + s
    ensures p == q && r == s
  {
    NotShorter(p, r, q, s);
    NotShorter(q, s, p, r);
    assert (p + r)[..|p|] == p && (q + s)[..|q|] == q;
    assert (p + r)[|p|..] == r && (q + s)[|q|..] == s;
  }

  ghost function Tail(parts: seq<string>): string
    requires parts != []
  {
    if |parts| == 1 then "" else "." + Join(parts[1..])
  }

  lemma JoinSplits(parts: seq<string>)
    requires parts != []
    ensures Join(parts) == parts[0] + Tail(parts)
    ensures if |parts| == 1 then Tail(parts) == "" else Tail(parts) != "" && Tail(parts)[1..] == Join(parts[1..])
  {
    if |parts| > 1 {
      assert Join(parts) == parts[0] + "." + Join(parts[1..]);
      hide Join;
      DotFirst(parts[0], Join(parts[1..]));
    }
  }

  lemma DotFirst(p: string, s: string)
    ensures p + "." + s == p + ("." + s) && ("." + s)[1..] == s
  {
  }

  /** Leading parts without dots can be read back, whatever the last part is. */
  lemma {:induction false} JoinHeads(p: seq<string>, x: string, q: seq<string>, y: string)
    requires AllPlain(p) && AllPlain(q) && |p| <= |q| && Join(p + [x]) == Join(q + [y])
    ensures p == q[..|p|] && x == Join(q[|p|..] + [y])
    decreases |p|
  {
    if p == [] {
      assert p + [x] == [x] && q[0..] == q;
    } else {
      var a, b := p + [x], q + [y];
      JoinSplits(a);
      JoinSplits(b);
      assert a[1..] == p[1..] + [x] && b[1..] == q[1..] + [y] && a[0] == p[0] && b[0] == q[0];
      hide Join, Tail;
      FirstPart(a[0], Tail(a), b[0], Tail(b));
      JoinHeads(p[1..], x, q[1..], y);
      assert p == [p[0]] + p[1..] && q == [q[0]] + q[1..] && q[1..][|p| - 1..] == q[|p|..];
    }
  }

  function Dotted(a: string, b: string): string { a + "." + b }

  lemma DottedEnds(a: string, b: string)
    ensures var s := Dotted(a, b); |s| == |a| + 1 + |b| && s[|a|] == '.' && s[|s| - 1] == if b == "" then '.' else b[|b| - 1]
  {
  }

  lemma DottedAgain(a: string, b: string, c: string)
    ensures Dotted(a, Dotted(b, c)) == Dotted(Dotted(a, b), c)
  {
    assert a + "." + (b + "." + c) == a + "." + b + "." + c;
  }

  lemma DottedNotGlobal(a: string, b: string)
    ensures !IsGlobal(b) ==> !IsGlobal(Dotted(a, b))
  {
    DottedEnds(a, b);
    hide Dotted;
    var s := Dotted(a, b);
    assert '.' in s && '.' !in "gnd";
  }

  lemma JoinDotted(parts: seq<string>)
    requires |parts| > 1
    ensures Join(parts) == Dotted(parts[0], Join(parts[1..]))
  {
  }

  lemma {:induction false} JoinNotGlobal(parts: seq<string>)
    requires parts != [] && !IsGlobal(parts[|parts| - 1])
    ensures !IsGlobal(Join(parts))
    decreases |parts|
  {
    if |parts| > 1 {
      JoinDotted(parts);
      assert parts[1..][|parts| - 2] == parts[|parts| - 1];
      hide Join, IsGlobal, Dotted;
      JoinNotGlobal(parts[1..]);
      DottedNotGlobal(parts[0], Join(parts[1..]));
    }
  }

  // ------------------------------------------------------ names at the root

  /** What precedes the first dot, and what follows it. */
  function BeforeDot(s: string): (r: string)
    ensures Plain(r)
  {
    if s == "" || s[0] == '.' then "" else [s[0]] + BeforeDot(s[1..])
  }

  function AfterDot(s: string): (r: Option<string>)
    ensures r == None <==> Plain(s)
    ensures r.Some? ==> s == Dotted(BeforeDot(s), r.value)
  {
    if s == "" then None
    else if s[0] == '.' then
      assert s == Dotted("", s[1..]);
      Some(s[1..])
    else
      var r := AfterDot(s[1..]);
      assert s == [s[0]] + s[1..];
      assert r.Some? ==> s == Dotted([s[0]] + BeforeDot(s[1..]), r.value);
      r
  }

  /** A name that no internal node can get: it has fewer than two dots, or what
      follows the second is ground or global. */
  predicate Safe(s: string) {
    var r := AfterDot(s);
    r == None || (var n := AfterDot(r.value); n == None || IsGlobal(n.value))
  }

  lemma {:induction false} SplitAtDot(p: string, s: string)
    requires Plain(p)
    ensures BeforeDot(Dotted(p, s)) == p && AfterDot(Dotted(p, s)) == Some(s)
  {
    var t := Dotted(p, s);
    if p == "" {
      assert t == "." + s && t[1..] == s;
    } else {
      assert t[0] == p[0] && p == [p[0]] + p[1..] && t[1..] == Dotted(p[1..], s);
      SplitAtDot(p[1..], s);
    }
  }

  /** A name that is not safe has the form of an internal one. */
  lemma UnsafeSplits(s: string) returns (p: string, q: string, n: string)
    requires !Safe(s)
    ensures s == Dotted(p, Dotted(q, n)) && Plain(p) && Plain(q) && !IsGlobal(n)
  {
    hide Dotted, IsGlobal;
    var r := AfterDot(s).value;
    p, q, n := BeforeDot(s), BeforeDot(r), AfterDot(r).value;
  }

  /** Ground and global names are safe. */
  lemma GlobalSafe(s: string)
    ensures IsGlobal(s) ==> Safe(s)
  {
    if !Safe(s) {
      var p, q, n := UnsafeSplits(s);
      DottedNotGlobal(q, n);
      DottedNotGlobal(p, Dotted(q, n));
    }
  }

  /** The name of an internal node is not safe. */
  lemma InternalNotSafe(parts: seq<string>)
    requires |parts| >= 3 && Plain(parts[0]) && Plain(parts[1]) && !IsGlobal(parts[|parts| - 1])
    ensures !Safe(Join(parts))
  {
    var r1, r2 := parts[1..], parts[2..];
    assert r1[1..] == r2 && r1[0] == parts[1] && r2[|r2| - 1] == parts[|parts| - 1];
    JoinDotted(parts);
    JoinDotted(r1);
    hide Join, IsGlobal, Dotted, Plain, BeforeDot, AfterDot;
    SplitAtDot(parts[0], Join(r1));
    SplitAtDot(parts[1], Join(r2));
    JoinNotGlobal(r2);
  }

  // ---------------------------------------------------------- the hierarchy

  /** The elements visible inside the innermost instance. */
  function Scope(root: seq<Element>, fs: seq<Frame>): seq<Element> {
    if fs == [] then root else fs[|fs| - 1].t.elements
  }

  /** f is an instance among the given elements, with its definition. */
  ghost predicate FrameIn(lib: Library, elements: seq<Element>, f: Frame) {
    && f.inst in elements && f.inst.IsSub() && f.inst.ref == Some(f.t.name)
    && Find(lib, f.t.name) == Some(f.t) && |f.inst.nodes| == |f.t.ports|
  }

  /** fs leads from the root to an instance. */
  ghost predicate Placed(lib: Library, root: seq<Element>, fs: seq<Frame>)
    decreases |fs|
  {
    fs == [] ||
    var up := fs[..|fs| - 1];
    Placed(lib, root, up) && FrameIn(lib, Scope(root, up), fs[|fs| - 1])
  }

  /** Different instances in one scope have different names. */
  ghost predicate DistinctInstances(elements: seq<Element>) {
    forall e, d | e in elements && d in elements && e.IsSub() && d.IsSub() && e.instance == d.instance :: e == d
  }

  ghost predicate DistinctPorts(t: Template) {
    forall i, j | 0 <= i < j < |t.ports| :: t.ports[i] != t.ports[j]
  }

  ghost predicate PlainInstances(elements: seq<Element>) {
    forall e | e in elements && e.IsSub() :: Plain(e.instance)
  }

  ghost predicate PlainNodes(elements: seq<Element>) {
    forall e | e in elements :: AllPlain(e.nodes)
  }

  ghost predicate SafeNodes(elements: seq<Element>) {
    forall e, n | e in elements && n in e.nodes :: Safe(n)
  }

  ghost predicate PortsDistinct(lib: Library) {
    forall t | t in lib :: DistinctPorts(t)
  }

  /** No instance name twice in one scope, no dots in the names of instances and
      definitions, and safe names for the nodes of the root. */
  ghost predicate Tidy(lib: Library, root: seq<Element>) {
    && DistinctInstances(root) && PlainInstances(root) && SafeNodes(root)
    && forall t | t in lib :: DistinctInstances(t.elements) && PlainInstances(t.elements) && Plain(t.name)
  }

  /** The hierarchy is acyclic, or no node inside a definition has a dot in its name. */
  ghost predicate Unambiguous(lib: Library, root: seq<Element>) {
    RootFits(lib, root) || forall t | t in lib :: PlainNodes(t.elements)
  }

  /** A node as it is written inside the instance fs leads to. */
  datatype Net = Net(fs: seq<Frame>, n: string)

  /** A port is joined to the node it is bound to. */
  ghost predicate Bound(a: Net, b: Net) {
    && a.fs != [] && b.fs == a.fs[..|a.fs| - 1]
    && var f := a.fs[|a.fs| - 1];
       exists k | 0 <= k < |f.t.ports| && k < |f.inst.nodes| :: a.n == f.t.ports[k] && b.n == f.inst.nodes[k]
  }

  /** Ground and global nodes are the same node at every level, unless a port
      hides the name. */
  ghost predicate Shared(a: Net, b: Net) {
    && a.fs != [] && (a.n == "gnd" || (a.n != "" && a.n[|a.n| - 1] == '!'))
    && a.n !in a.fs[|a.fs| - 1].t.ports && b == Net([], a.n)
  }

  ghost predicate Linked(a: Net, b: Net) {
    Bound(a, b) || Bound(b, a) || Shared(a, b) || Shared(b, a)
  }

  /** Two nodes of the hierarchy that are linked directly. */
  ghost function Wires(lib: Library, root: seq<Element>): (Net, Net) -> bool {
    (a: Net, b: Net) => Placed(lib, root, a.fs) && Placed(lib, root, b.fs) && Linked(a, b)
  }

  ghost predicate Chain<T(!new)>(r: (T, T) -> bool, c: seq<T>) {
    c != [] && forall i, j | 0 <= i && j == i + 1 < |c| :: r(c[i], c[j])
  }

  /** a and b are linked directly or through others. */
  ghost predicate Connected<T(!new)>(r: (T, T) -> bool, a: T, b: T) {
    exists c :: Chain(r, c) && c[0] == a && c[|c| - 1] == b
  }

  /** a and b are the same electrical node. */
  ghost predicate Joined(lib: Library, root: seq<Element>, a: Net, b: Net) {
    Connected(Wires(lib, root), a, b)
  }

  lemma ConnectedSelf<T(!new)>(r: (T, T) -> bool, a: T)
    ensures Connected(r, a, a)
  {
    assert Chain(r, [a]);
  }

  lemma ConnectedStep<T(!new)>(r: (T, T) -> bool, a: T, b: T)
    requires r(a, b)
    ensures Connected(r, a, b)
  {
    assert Chain(r, [a, b]);
  }

  lemma ConnectedTransitive<T(!new)>(r: (T, T) -> bool, a: T, b: T, d: T)
    requires Connected(r, a, b) && Connected(r, b, d)
    ensures Connected(r, a, d)
  {
    var p :| Chain(r, p) && p[0] == a && p[|p| - 1] == b;
    var q :| Chain(r, q) && q[0] == b && q[|q| - 1] == d;
    var c := p + q[1..];
    forall i, j | 0 <= i && j == i + 1 < |c|
      ensures r(c[i], c[j])
    {
      if j >= |p| { assert r(q[i - |p| + 1], q[j - |p| + 1]); } else { assert r(p[i], p[j]); }
    }
    assert Chain(r, c);
  }

  lemma ConnectedReverse<T(!new)>(r: (T, T) -> bool, a: T, b: T)
    requires Connected(r, a, b) && forall x, y | r(x, y) :: r(y, x)
    ensures Connected(r, b, a)
  {
    var c :| Chain(r, c) && c[0] == a && c[|c| - 1] == b;
    var e := seq(|c|, i requires 0 <= i < |c| => c[|c| - 1 - i]);
    forall i, j | 0 <= i && j == i + 1 < |e|
      ensures r(e[i], e[j])
    {
      assert r(c[|c| - 1 - j], c[|c| - 1 - i]);
    }
    assert Chain(r, e);
  }

  lemma {:induction false} PlacedFramed(lib: Library, root: seq<Element>, fs: seq<Frame>)
    requires Placed(lib, root, fs)
    ensures Framed(fs)
    decreases |fs|
  {
    if fs != [] {
      var up := fs[..|fs| - 1];
      PlacedFramed(lib, root, up);
      assert forall i | 0 <= i < |up| :: fs[i] == up[i];
    }
  }

  // -------------------------------------------------------- homes of nodes

  /** Where a node is found in the end: at the root, or inside an instance. */
  ghost function Home(fs: seq<Frame>, n: string): Net
    requires Framed(fs)
  {
    if fs == [] then Net([], n)
    else
      var f, up := fs[|fs| - 1], fs[..|fs| - 1];
      var k := PortNr(f.t.ports, n);
      if k > 0 then Home(up, f.inst.nodes[k - 1]) else if IsGlobal(n) then Net([], n) else Net(fs, n)
  }

  /** The node at home is internal to its instance, or at the root. */
  ghost predicate IsHome(a: Net) {
    a.fs == [] || (a.n !in a.fs[|a.fs| - 1].t.ports && !IsGlobal(a.n))
  }

  // ------------------------------------------------ joined nodes share a home

  lemma LinkKeepsHome(lib: Library, root: seq<Element>, a: Net, b: Net)
    requires PortsDistinct(lib) && Placed(lib, root, a.fs) && Placed(lib, root, b.fs) && Linked(a, b)
    requires Framed(a.fs) && Framed(b.fs)
    ensures Home(a.fs, a.n) == Home(b.fs, b.n)
  {
    if Bound(a, b) {
      BoundKeepsHome(lib, root, a, b);
    } else if Bound(b, a) {
      BoundKeepsHome(lib, root, b, a);
    }
  }

  lemma BoundKeepsHome(lib: Library, root: seq<Element>, a: Net, b: Net)
    requires PortsDistinct(lib) && Placed(lib, root, a.fs) && Bound(a, b) && Framed(a.fs) && Framed(b.fs)
    ensures Home(a.fs, a.n) == Home(b.fs, b.n)
  {
    var f := a.fs[|a.fs| - 1];
    PortsOfPlaced(lib, root, a.fs);
    var k :| 0 <= k < |f.t.ports| && k < |f.inst.nodes| && a.n == f.t.ports[k] && b.n == f.inst.nodes[k];
    hide Placed, PortsDistinct, DistinctPorts, Bound, Framed, PortNr;
    PortNrOf(f.t, k);
    BoundHome(a, b, k);
  }

  lemma BoundHome(a: Net, b: Net, k: nat)
    requires Framed(a.fs) && a.fs != [] && b.fs == a.fs[..|a.fs| - 1] && Framed(b.fs)
    requires var f := a.fs[|a.fs| - 1]; PortNr(f.t.ports, a.n) == k + 1 <= |f.inst.nodes| && b.n == f.inst.nodes[k]
    ensures Home(a.fs, a.n) == Home(b.fs, b.n)
  {
  }

  lemma PortsOfPlaced(lib: Library, root: seq<Element>, fs: seq<Frame>)
    requires PortsDistinct(lib) && Placed(lib, root, fs) && fs != []
    ensures DistinctPorts(fs[|fs| - 1].t)
  {
    assert fs[|fs| - 1].t in lib;
  }

  lemma PortNrOf(t: Template, k: nat)
    requires DistinctPorts(t) && k < |t.ports|
    ensures PortNr(t.ports, t.ports[k]) == k + 1
  {
    var p := PortNr(t.ports, t.ports[k]);
    assert p > k;
  }

  lemma {:induction false} ChainKeepsHome(lib: Library, root: seq<Element>, c: seq<Net>)
    requires PortsDistinct(lib) && Chain(Wires(lib, root), c)
    requires Framed(c[0].fs) && Framed(c[|c| - 1].fs)
    ensures Home(c[0].fs, c[0].n) == Home(c[|c| - 1].fs, c[|c| - 1].n)
    decreases |c|
  {
    if |c| > 1 {
      var d, m := c[..|c| - 1], |c| - 2;
      assert Wires(lib, root)(c[m], c[m + 1]);
      PlacedFramed(lib, root, c[m].fs);
      assert Chain(Wires(lib, root), d) by {
        forall i, j | 0 <= i && j == i + 1 < |d| ensures Wires(lib, root)(d[i], d[j]) {
          assert Wires(lib, root)(c[i], c[j]);
        }
      }
      ChainKeepsHome(lib, root, d);
      LinkKeepsHome(lib, root, c[m], c[m + 1]);
    }
  }

  // -------------------------------------------------- equal names are joined

  lemma {:induction false} HomeFound(lib: Library, root: seq<Element>, fs: seq<Frame>, n: string)
    requires Placed(lib, root, fs) && Framed(fs)
    ensures var h := Home(fs, n); Placed(lib, root, h.fs) && Framed(h.fs) && IsHome(h)
    decreases |fs|
  {
    if fs != [] {
      var f, up := fs[|fs| - 1], fs[..|fs| - 1];
      PlacedFramed(lib, root, fs);
      PlacedFramed(lib, root, up);
      var k := PortNr(f.t.ports, n);
      if k > 0 { HomeFound(lib, root, up, f.inst.nodes[k - 1]); }
    }
  }

  lemma {:induction false} HomeName(fs: seq<Frame>, n: string)
    requires Framed(fs)
    ensures var h := Home(fs, n); Framed(h.fs) && Resolve(h.fs, h.n) == Resolve(fs, n)
    decreases |fs|
  {
    if fs != [] {
      var f, up := fs[|fs| - 1], fs[..|fs| - 1];
      var k := PortNr(f.t.ports, n);
      if k > 0 { HomeName(up, f.inst.nodes[k - 1]); }
    }
  }

  lemma JoinedPort(lib: Library, root: seq<Element>, fs: seq<Frame>, n: string, k: nat)
    requires fs != [] && Placed(lib, root, fs) && Placed(lib, root, fs[..|fs| - 1])
    requires var f := fs[|fs| - 1]; 0 < k <= |f.t.ports| && k <= |f.inst.nodes| && f.t.ports[k - 1] == n
    ensures Joined(lib, root, Net(fs, n), Net(fs[..|fs| - 1], fs[|fs| - 1].inst.nodes[k - 1]))
  {
    var a, b := Net(fs, n), Net(fs[..|fs| - 1], fs[|fs| - 1].inst.nodes[k - 1]);
    assert Bound(a, b);
    assert Wires(lib, root)(a, b);
    ConnectedStep(Wires(lib, root), a, b);
  }

  lemma JoinedGlobal(lib: Library, root: seq<Element>, fs: seq<Frame>, n: string)
    requires fs != [] && Placed(lib, root, fs) && IsGlobal(n) && PortNr(fs[|fs| - 1].t.ports, n) == 0
    ensures Joined(lib, root, Net(fs, n), Net([], n))
  {
    var a, b := Net(fs, n), Net([], n);
    assert Shared(a, b);
    assert Placed(lib, root, b.fs);
    ConnectedStep(Wires(lib, root), a, b);
  }

  lemma {:induction false} JoinedHome(lib: Library, root: seq<Element>, fs: seq<Frame>, n: string)
    requires Placed(lib, root, fs) && Framed(fs)
    ensures Joined(lib, root, Net(fs, n), Home(fs, n))
    decreases |fs|
  {
    var w := Wires(lib, root);
    ConnectedSelf(w, Net(fs, n));
    if fs != [] {
      var f, up := fs[|fs| - 1], fs[..|fs| - 1];
      PlacedFramed(lib, root, fs);
      PlacedFramed(lib, root, up);
      var k := PortNr(f.t.ports, n);
      if k > 0 {
        JoinedHome(lib, root, up, f.inst.nodes[k - 1]);
        JoinedPort(lib, root, fs, n, k);
        ConnectedTransitive(w, Net(fs, n), Net(up, f.inst.nodes[k - 1]), Home(fs, n));
      } else if IsGlobal(n) {
        JoinedGlobal(lib, root, fs, n);
      }
    }
  }

  /** Two instances of the same name in the same place are the same. */
  lemma FrameDetermined(lib: Library, elements: seq<Element>, f: Frame, g: Frame)
    requires DistinctInstances(elements) && FrameIn(lib, elements, f) && FrameIn(lib, elements, g)
    requires f.inst.instance == g.inst.instance
    ensures f == g
  {
    assert f.inst == g.inst;
  }

  /** The instance names on the way determine the way. */
  lemma {:induction false} WayDetermined(lib: Library, root: seq<Element>, fs: seq<Frame>, gs: seq<Frame>)
    requires Tidy(lib, root) && Placed(lib, root, fs) && Placed(lib, root, gs) && Instances(fs) == Instances(gs)
    ensures fs == gs
    decreases |fs|, 0
  {
    if fs == [] {
      assert |Instances(gs)| == 0;
    } else {
      assert |Instances(gs)| == |Instances(fs)| > 0;
      InstancesSplit(fs);
      InstancesSplit(gs);
      WayStep(lib, root, fs[..|fs| - 1], fs[|fs| - 1], gs[..|gs| - 1], gs[|gs| - 1]);
    }
  }

  lemma InstancesSplit(fs: seq<Frame>)
    requires fs != []
    ensures Instances(fs) == Instances(fs[..|fs| - 1]) + [fs[|fs| - 1].inst.instance]
    ensures fs == fs[..|fs| - 1] + [fs[|fs| - 1]]
  {
  }

  lemma WayStep(lib: Library, root: seq<Element>, up: seq<Frame>, f: Frame, vp: seq<Frame>, g: Frame)
    requires Tidy(lib, root) && Placed(lib, root, up) && Placed(lib, root, vp)
    requires FrameIn(lib, Scope(root, up), f) && FrameIn(lib, Scope(root, vp), g)
    requires Instances(up) + [f.inst.instance] == Instances(vp) + [g.inst.instance]
    ensures up == vp && f == g
    decreases |up|, 1
  {
    var s, t := Instances(up) + [f.inst.instance], Instances(vp) + [g.inst.instance];
    assert s[..|s| - 1] == Instances(up) && t[..|t| - 1] == Instances(vp);
    assert s[|s| - 1] == f.inst.instance && t[|t| - 1] == g.inst.instance;
    WayDetermined(lib, root, up, vp);
    ScopeDistinct(lib, root, up);
    FrameDetermined(lib, Scope(root, up), f, g);
  }

  lemma ScopeDistinct(lib: Library, root: seq<Element>, fs: seq<Frame>)
    requires Tidy(lib, root) && Placed(lib, root, fs)
    ensures DistinctInstances(Scope(root, fs)) && PlainInstances(Scope(root, fs))
  {
    if fs != [] { assert fs[|fs| - 1].t in lib; }
  }

  // ------------------------------------------------------------ the theorems

  /** Two nodes are the same electrical node exactly when they have the same home,
      in every hierarchy without repeated port names. */
  lemma JoinedIffSameHome(lib: Library, root: seq<Element>, a: Net, b: Net)
    requires PortsDistinct(lib) && Placed(lib, root, a.fs) && Placed(lib, root, b.fs) && Framed(a.fs) && Framed(b.fs)
    ensures Joined(lib, root, a, b) <==> Home(a.fs, a.n) == Home(b.fs, b.n)
  {
    var w := Wires(lib, root);
    if Joined(lib, root, a, b) {
      var c :| Chain(w, c) && c[0] == a && c[|c| - 1] == b;
      ChainKeepsHome(lib, root, c);
    }
    if Home(a.fs, a.n) == Home(b.fs, b.n) {
      JoinedHome(lib, root, a.fs, a.n);
      JoinedHome(lib, root, b.fs, b.n);
      ConnectedReverse(w, b, Home(b.fs, b.n));
      ConnectedTransitive(w, a, Home(a.fs, a.n), b);
    }
  }

  /** A net written at the root has a safe name. */
  ghost predicate SafeNet(a: Net) { a.fs == [] ==> Safe(a.n) }

  lemma {:induction false} HomeSafe(lib: Library, root: seq<Element>, fs: seq<Frame>, n: string)
    requires Tidy(lib, root) && Placed(lib, root, fs) && Framed(fs) && SafeNet(Net(fs, n))
    ensures SafeNet(Home(fs, n))
    decreases |fs|
  {
    if fs != [] {
      var f, up := fs[|fs| - 1], fs[..|fs| - 1];
      var k := PortNr(f.t.ports, n);
      hide Safe, IsGlobal, PortNr;
      if k > 0 {
        assert f.inst in Scope(root, up) && f.inst.nodes[k - 1] in f.inst.nodes;
        HomeSafe(lib, root, up, f.inst.nodes[k - 1]);
      } else if IsGlobal(n) {
        GlobalSafe(n);
      }
    }
  }

  lemma {:induction false} HomePlain(lib: Library, root: seq<Element>, fs: seq<Frame>, n: string)
    requires Placed(lib, root, fs) && Framed(fs) && (forall t | t in lib :: PlainNodes(t.elements))
    requires fs != [] ==> Plain(n)
    ensures var h := Home(fs, n); h.fs != [] ==> Plain(h.n)
    decreases |fs|
  {
    if fs != [] {
      var f, up := fs[|fs| - 1], fs[..|fs| - 1];
      var k := PortNr(f.t.ports, n);
      if k > 0 {
        if up != [] {
          assert up[|up| - 1].t in lib && f.inst in Scope(root, up) && AllPlain(f.inst.nodes);
        }
        HomePlain(lib, root, up, f.inst.nodes[k - 1]);
      }
    }
  }

  lemma {:induction false} WayPlain(lib: Library, root: seq<Element>, fs: seq<Frame>)
    requires Tidy(lib, root) && Placed(lib, root, fs)
    ensures AllPlain(Instances(fs))
    decreases |fs|
  {
    if fs != [] {
      WayPlain(lib, root, fs[..|fs| - 1]);
      InstancesSplit(fs);
      ScopeDistinct(lib, root, fs[..|fs| - 1]);
      assert FrameIn(lib, Scope(root, fs[..|fs| - 1]), fs[|fs| - 1]);
    }
  }

  // ------------------------------------------------- names of internal nodes

  /** The parts of the name of an internal node, but for the node itself. */
  ghost function Heads(fs: seq<Frame>): seq<string>
    requires fs != []
  {
    [fs[|fs| - 1].t.name] + Instances(fs)
  }

  lemma HeadsPlain(lib: Library, root: seq<Element>, fs: seq<Frame>)
    requires Tidy(lib, root) && Placed(lib, root, fs) && fs != []
    ensures AllPlain(Heads(fs))
  {
    WayPlain(lib, root, fs);
    assert fs[|fs| - 1].t in lib;
  }

  lemma NameFromParts(fs: seq<Frame>, n: string)
    requires Framed(fs) && fs != [] && IsHome(Net(fs, n))
    ensures Resolve(fs, n) == Join(Heads(fs) + [n])
  {
    var f := fs[|fs| - 1];
    InstancesSplit(fs);
    assert PortNr(f.t.ports, n) == 0;
    assert [f.t.name] + Instances(fs[..|fs| - 1]) + [f.inst.instance, n] == Heads(fs) + [n];
  }

  lemma DottedName(parts: seq<string>)
    requires |parts| > 1
    ensures !Plain(Join(parts))
  {
    var s := Join(parts);
    assert s[|parts[0]|] == '.';
  }

  lemma InternalUnsafe(lib: Library, root: seq<Element>, fs: seq<Frame>, n: string)
    requires Tidy(lib, root) && Placed(lib, root, fs) && Framed(fs) && fs != [] && IsHome(Net(fs, n))
    ensures !Safe(Resolve(fs, n))
  {
    HeadsPlain(lib, root, fs);
    NameFromParts(fs, n);
    var parts := Heads(fs) + [n];
    assert parts[0] == Heads(fs)[0] && parts[1] == Heads(fs)[1] && parts[|parts| - 1] == n;
    InternalNotSafe(parts);
  }

  /** The names of the definitions on the way. */
  function Types(fs: seq<Frame>): seq<string> {
    seq(|fs|, i requires 0 <= i < |fs| => fs[i].t.name)
  }

  lemma {:induction false} PlacedSound(lib: Library, root: seq<Element>, fs: seq<Frame>)
    requires RootFits(lib, root) && Placed(lib, root, fs) && fs != []
    ensures Sound(lib, Types(fs[..|fs| - 1]), fs[|fs| - 1].t.name)
    decreases |fs|
  {
    var f, up := fs[|fs| - 1], fs[..|fs| - 1];
    assert FrameIn(lib, Scope(root, up), f);
    if up == [] {
      assert Types(up) == [] && f.inst in root;
    } else {
      PlacedSound(lib, root, up);
      var g := up[|up| - 1];
      assert Types(up) == Types(up[..|up| - 1]) + [g.t.name];
      assert FrameIn(lib, Scope(root, up[..|up| - 1]), g);
      assert f.inst in g.t.elements;
    }
  }

  lemma {:induction false} PlacedPrefix(lib: Library, root: seq<Element>, fs: seq<Frame>, k: nat)
    requires Placed(lib, root, fs) && k <= |fs|
    ensures Placed(lib, root, fs[..k])
    decreases |fs|
  {
    if k < |fs| {
      assert fs[..|fs| - 1][..k] == fs[..k];
      PlacedPrefix(lib, root, fs[..|fs| - 1], k);
    } else {
      assert fs[..k] == fs;
    }
  }

  /** No definition occurs inside itself. */
  lemma DefinitionsDiffer(lib: Library, root: seq<Element>, gs: seq<Frame>, k: nat)
    requires RootFits(lib, root) && Placed(lib, root, gs) && k < |gs| - 1
    ensures gs[k].t.name != gs[|gs| - 1].t.name
  {
    var types := Types(gs[..|gs| - 1]);
    assert types[k] == gs[k].t.name;
    PlacedSound(lib, root, gs);
    assert gs[|gs| - 1].t.name !in types;
  }

  lemma HeadsSplit(fs: seq<Frame>)
    requires fs != []
    ensures Heads(fs)[0] == fs[|fs| - 1].t.name && Heads(fs)[1..] == Instances(fs) && |Heads(fs)| == |fs| + 1
  {
  }

  lemma HeadsPrefix(fs: seq<Frame>, gs: seq<Frame>)
    requires fs != [] && |fs| < |gs| && Heads(fs) == Heads(gs)[..|fs| + 1]
    ensures Instances(fs) == Instances(gs)[..|fs|] && fs[|fs| - 1].t.name == gs[|gs| - 1].t.name
  {
    var m := |fs|;
    HeadsSplit(fs);
    HeadsSplit(gs);
    hide Heads, Instances;
    assert Heads(gs)[..m + 1][1..] == Heads(gs)[1..][..m];
    assert Heads(gs)[..m + 1][0] == Heads(gs)[0];
  }

  lemma InstancesPrefix(fs: seq<Frame>, k: nat)
    requires k <= |fs|
    ensures Instances(fs[..k]) == Instances(fs)[..k]
  {
  }

  lemma SameDefinition(lib: Library, root: seq<Element>, fs: seq<Frame>, gs: seq<Frame>)
    requires Tidy(lib, root) && RootFits(lib, root) && Placed(lib, root, fs) && Placed(lib, root, gs) && fs != [] && |fs| < |gs|
    ensures Instances(fs) == Instances(gs)[..|fs|] ==> fs[|fs| - 1].t.name != gs[|gs| - 1].t.name
  {
    var m := |fs|;
    PlacedPrefix(lib, root, gs, m);
    InstancesPrefix(gs, m);
    DefinitionsDiffer(lib, root, gs, m - 1);
    hide Placed, RootFits, Tidy, Instances;
    if Instances(fs) == Instances(gs)[..m] { WayDetermined(lib, root, fs, gs[..m]); }
  }

  lemma LongerHeads(lib: Library, root: seq<Element>, a: Net, b: Net)
    requires Tidy(lib, root) && Placed(lib, root, a.fs) && Placed(lib, root, b.fs) && a.fs != [] && |a.fs| < |b.fs|
    requires Join(Heads(a.fs) + [a.n]) == Join(Heads(b.fs) + [b.n])
    ensures Heads(a.fs) == Heads(b.fs)[..|a.fs| + 1] && !Plain(a.n)
  {
    var p, q := Heads(a.fs), Heads(b.fs);
    HeadsPlain(lib, root, a.fs);
    HeadsPlain(lib, root, b.fs);
    HeadsSplit(a.fs);
    HeadsSplit(b.fs);
    hide Heads, Tidy, Placed;
    JoinHeads(p, a.n, q, b.n);
    DottedName(q[|p|..] + [b.n]);
  }

  /** One way cannot continue another to the same definition, and with plain node
      names it cannot give the same name. */
  lemma NotLonger(lib: Library, root: seq<Element>, a: Net, b: Net)
    requires Tidy(lib, root) && Placed(lib, root, a.fs) && Placed(lib, root, b.fs) && a.fs != [] && |a.fs| < |b.fs|
    requires RootFits(lib, root) || Plain(a.n)
    ensures Join(Heads(a.fs) + [a.n]) != Join(Heads(b.fs) + [b.n])
  {
    hide Join, Heads, Instances, Tidy, Placed, RootFits;
    if Join(Heads(a.fs) + [a.n]) == Join(Heads(b.fs) + [b.n]) {
      LongerHeads(lib, root, a, b);
      HeadsPrefix(a.fs, b.fs);
      SameDefinition(lib, root, a.fs, b.fs);
    }
  }

  lemma SameHeads(lib: Library, root: seq<Element>, a: Net, b: Net)
    requires Tidy(lib, root) && Placed(lib, root, a.fs) && Placed(lib, root, b.fs) && a.fs != [] && |a.fs| == |b.fs|
    requires Join(Heads(a.fs) + [a.n]) == Join(Heads(b.fs) + [b.n])
    ensures a == b
  {
    var p, q := Heads(a.fs), Heads(b.fs);
    HeadsPlain(lib, root, a.fs);
    HeadsPlain(lib, root, b.fs);
    JoinHeads(p, a.n, q, b.n);
    assert q[..|p|] == q && q[|p|..] + [b.n] == [b.n];
    HeadsSplit(a.fs);
    HeadsSplit(b.fs);
    WayDetermined(lib, root, a.fs, b.fs);
  }

  /** Nodes with different homes get different names. */
  lemma HomesNamedApart(lib: Library, root: seq<Element>, a: Net, b: Net)
    requires Tidy(lib, root) && Placed(lib, root, a.fs) && Placed(lib, root, b.fs) && Framed(a.fs) && Framed(b.fs)
    requires IsHome(a) && IsHome(b) && SafeNet(a) && SafeNet(b)
    requires RootFits(lib, root) || ((a.fs != [] ==> Plain(a.n)) && (b.fs != [] ==> Plain(b.n)))
    requires Resolve(a.fs, a.n) == Resolve(b.fs, b.n)
    ensures a == b
  {
    if a.fs != [] { InternalUnsafe(lib, root, a.fs, a.n); }
    if b.fs != [] { InternalUnsafe(lib, root, b.fs, b.n); }
    if a.fs != [] && b.fs != [] {
      NameFromParts(a.fs, a.n);
      NameFromParts(b.fs, b.n);
      if |a.fs| < |b.fs| {
        NotLonger(lib, root, a, b);
      } else if |b.fs| < |a.fs| {
        NotLonger(lib, root, b, a);
      } else {
        SameHeads(lib, root, a, b);
      }
    }
  }

  /** Flattening preserves connectivity: two nodes get the same name exactly when
      they are joined in the hierarchy.  The names of nodes inside definitions are
      arbitrary if the hierarchy is acyclic. */
  lemma SameNameIffJoined(lib: Library, root: seq<Element>, a: Net, b: Net)
    requires Tidy(lib, root) && PortsDistinct(lib) && SafeNet(a) && SafeNet(b)
    requires Unambiguous(lib, root) && (RootFits(lib, root) || ((a.fs != [] ==> Plain(a.n)) && (b.fs != [] ==> Plain(b.n))))
    requires Placed(lib, root, a.fs) && Placed(lib, root, b.fs) && Framed(a.fs) && Framed(b.fs)
    ensures Resolve(a.fs, a.n) == Resolve(b.fs, b.n) <==> Joined(lib, root, a, b)
  {
    JoinedIffSameHome(lib, root, a, b);
    HomeName(a.fs, a.n);
    HomeName(b.fs, b.n);
    if Resolve(a.fs, a.n) == Resolve(b.fs, b.n) {
      HomeFound(lib, root, a.fs, a.n);
      HomeFound(lib, root, b.fs, b.n);
      HomeSafe(lib, root, a.fs, a.n);
      HomeSafe(lib, root, b.fs, b.n);
      if !RootFits(lib, root) {
        HomePlain(lib, root, a.fs, a.n);
        HomePlain(lib, root, b.fs, b.n);
      }
      HomesNamedApart(lib, root, Home(a.fs, a.n), Home(b.fs, b.n));
    }
  }

  // --------------------------------------------------- where the code fails

  /** A port is bound to the node at its position, for every instance, exactly when
      no port name is repeated: of equal names the last position wins. */
  lemma PortsKeptIffDistinct(t: Template)
    ensures DistinctPorts(t) <==> PortsKept(t)
  {
    if DistinctPorts(t) {
      forall inst: Element, k | |inst.nodes| == |t.ports| && 0 <= k < |t.ports|
        ensures PortKept(t, inst, k)
      {
        PortNrOf(t, k);
      }
    } else {
      var i, j :| 0 <= i < j < |t.ports| && t.ports[i] == t.ports[j];
      var nodes := seq(|t.ports|, k => if k == i then "b" else "a");
      var inst := Element("Sub", "x", nodes, Some(t.name));
      var k, fs := PortNr(t.ports, t.ports[i]), [Frame(t, inst)];
      assert k > j && nodes[k - 1] == "a" && nodes[i] == "b";
      assert fs[..|fs| - 1] == [];
      assert Resolve(fs, t.ports[i]) == Resolve([], nodes[k - 1]) == nodes[k - 1];
      assert nodes[k - 1][0] == 'a' && nodes[i][0] == 'b';
      assert !PortKept(t, inst, i);
    }
  }

  ghost predicate PortKept(t: Template, inst: Element, k: nat)
    requires |inst.nodes| == |t.ports| && k < |t.ports|
  {
    Resolve([Frame(t, inst)], t.ports[k]) == inst.nodes[k]
  }

  ghost predicate PortsKept(t: Template) {
    forall inst: Element, k | |inst.nodes| == |t.ports| && 0 <= k < |t.ports| :: PortKept(t, inst, k)
  }
}
