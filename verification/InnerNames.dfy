/** What nodes inside definitions are called in the flat netlist, spelled out. */
module InnerNames {
  import opened Connectivity
  import opened Flattening
  import opened Netlist

  /** The instance names on the way, outermost first, each followed by a dot. */
  function Way(fs: seq<Frame>): string {
    if fs == [] then "" else Way(fs[..|fs| - 1]) + fs[|fs| - 1].inst.instance + "."
  }

  lemma {:induction false} JoinWay(t: string, fs: seq<Frame>, n: string)
    ensures Join([t] + Instances(fs) + [n]) == t + "." + (Way(fs) + n)
    decreases |fs|
  {
    if fs == [] {
      assert [t] + Instances(fs) + [n] == [t, n] && [t, n][1..] == [n] && Way(fs) + n == n;
    } else {
      var up, i := fs[..|fs| - 1], fs[|fs| - 1].inst.instance;
      assert Instances(fs) == Instances(up) + [i];
      LastTwo([t] + Instances(up), i, n);
      assert [t] + Instances(fs) + [n] == [t] + Instances(up) + [i, n];
      JoinWay(t, up, i + "." + n);
      assert Way(up) + (i + "." + n) == Way(fs) + n;
    }
  }

  /** The last two parts, joined, can stand for both. */
  lemma {:induction false} LastTwo(parts: seq<string>, x: string, y: string)
    requires parts != []
    ensures Join(parts + [x, y]) == Join(parts + [x + "." + y])
  {
    var all, one := parts + [x, y], parts + [x + "." + y];
    if |parts| == 1 {
      assert all[1..] == [x, y] && [x, y][1..] == [y] && one[1..] == [x + "." + y];
      assert Join([x, y]) == x + "." + y && Join([x + "." + y]) == x + "." + y;
      assert all[0] == one[0] == parts[0];
    } else {
      assert all[1..] == parts[1..] + [x, y] && one[1..] == parts[1..] + [x + "." + y];
      LastTwo(parts[1..], x, y);
    }
  }

  /** The name made for something inside the innermost instance. */
  lemma InnerName(fs: seq<Frame>, x: string)
    requires fs != []
    ensures InternalName(fs[|fs| - 1].t.name, Instances(fs[..|fs| - 1]), fs[|fs| - 1].inst.instance, x) ==
            fs[|fs| - 1].t.name + "." + (Way(fs) + x)
  {
    hide Join, Way, Instances;
    InstancesSplit(fs);
    var t, u, i := fs[|fs| - 1].t.name, Instances(fs[..|fs| - 1]), fs[|fs| - 1].inst.instance;
    assert [t] + u + [i, x] == [t] + (u + [i]) + [x];
    JoinWay(t, fs, x);
  }

  /** Inside a definition a node that is no port is called after the definition, the
      instances on the way from the root and itself, unless it is ground or global. */
  lemma ResolvedName(fs: seq<Frame>, n: string)
    requires Framed(fs) && fs != [] && n !in fs[|fs| - 1].t.ports
    ensures Resolve(fs, n) ==
      if n == "gnd" || (n != "" && n[|n| - 1] == '!') then n
      else fs[|fs| - 1].t.name + "." + (Way(fs) + n)
  {
    assert PortNr(fs[|fs| - 1].t.ports, n) == 0;
    InnerName(fs, n);
  }

  /** A port of distinct name is called what the node bound to it is called outside. */
  lemma PortName(fs: seq<Frame>, k: nat)
    requires Framed(fs) && fs != [] && DistinctPorts(fs[|fs| - 1].t) && k < |fs[|fs| - 1].t.ports|
    ensures Resolve(fs, fs[|fs| - 1].t.ports[k]) == Resolve(fs[..|fs| - 1], fs[|fs| - 1].inst.nodes[k])
  {
    PortNrOf(fs[|fs| - 1].t, k);
  }

  /** Such a node keeps its name exactly if it is ground or global. */
  lemma NameKeptIff(fs: seq<Frame>, n: string)
    requires Framed(fs) && fs != [] && n !in fs[|fs| - 1].t.ports
    ensures Resolve(fs, n) == n <==> n == "gnd" || (n != "" && n[|n| - 1] == '!')
  {
    ResolvedName(fs, n);
    var x := fs[|fs| - 1].t.name + "." + (Way(fs) + n);
    assert |x| > |n|;
  }
}
