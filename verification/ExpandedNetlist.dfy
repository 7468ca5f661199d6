/** The netlist that is left when every instance of the root has been expanded. */
module ExpandedNetlist {
  import opened Netlist
  import opened Options
  import opened Flattening

  /** The root's instances refer to sound definitions and have as many nodes. */
  ghost predicate RootFits(lib: Library, root: seq<Element>) {
    Checked(lib) && forall e | e in root && e.IsSub() :: Fits(lib, e) && e.ref.Some? && Sound(lib, [], e.ref.value)
  }

  /** Everything inside an instance of the root. */
  ghost function LeavesOf(lib: Library, e: Element): seq<Component>
    requires Checked(lib) && e.IsSub() && Fits(lib, e) && e.ref.Some? && Sound(lib, [], e.ref.value)
  {
    var sub := Find(lib, e.ref.value).value;
    Leaves(lib, [], [Frame(sub, e)], |sub.elements|)
  }

  /** Everything inside the instances among the first k elements, the last instance first. */
  ghost function RootLeaves(lib: Library, root: seq<Element>, k: nat): seq<Component>
    requires RootFits(lib, root) && k <= |root|
  {
    if k == 0 then []
    else if root[k - 1].IsSub() then LeavesOf(lib, root[k - 1]) + RootLeaves(lib, root, k - 1)
    else RootLeaves(lib, root, k - 1)
  }

  function NamedNodes(names: seq<string>): seq<Terminal> {
    seq(|names|, i requires 0 <= i < |names| => Named(names[i]))
  }

  /** Copies without any blank node. */
  function AllNamed(ds: seq<Component>): seq<Copied> {
    seq(|ds|, i requires 0 <= i < |ds| => Copied(ds[i].typ, ds[i].instance, NamedNodes(ds[i].nodes)))
  }

  /** Copies made for an instance of the root have no blank nodes left: they are
      the directly resolved leaves. */
  lemma TopCopies(lib: Library, e: Element)
    requires Checked(lib) && e.IsSub() && Fits(lib, e) && e.ref.Some? && Sound(lib, [], e.ref.value)
    ensures var sub := Find(lib, e.ref.value).value;
            Copies(lib, [], sub, e, [], |sub.elements|) == AllNamed(LeavesOf(lib, e))
  {
    var sub := Find(lib, e.ref.value).value;
    var fs := [Frame(sub, e)];
    assert fs[..|fs| - 1] == [] && Instances([]) == [];
    CopiesAreLeaves(lib, [], fs, |sub.elements|);
    var cs, ds := Copies(lib, [], sub, e, [], |sub.elements|), LeavesOf(lib, e);
    forall i | 0 <= i < |cs|
      ensures cs[i] == AllNamed(ds)[i]
    {
      MeansNamed(fs, cs[i], ds[i]);
    }
  }

  lemma MeansNamed(fs: seq<Frame>, c: Copied, d: Component)
    requires Framed(fs) && |fs| == 1 && Means(fs, c, d)
    ensures c == Copied(d.typ, d.instance, NamedNodes(d.nodes))
  {
    forall i | 0 <= i < |c.nodes|
      ensures c.nodes[i] == Named(d.nodes[i])
    {
      assert Proper(fs, c.nodes[i]);
    }
  }

  lemma AllNamedAppend(ds: seq<Component>, ds': seq<Component>)
    ensures AllNamed(ds + ds') == AllNamed(ds) + AllNamed(ds')
  {
  }

  /** No instance is left in what an instance expands to. */
  lemma {:induction false} LeavesHaveNoInstance(lib: Library, path: seq<string>, fs: seq<Frame>, k: nat)
    requires Checked(lib) && Framed(fs) && fs != []
    requires var t := fs[|fs| - 1].t; Find(lib, t.name) == Some(t) && Sound(lib, path, t.name) && k <= |t.elements|
    ensures forall d | d in Leaves(lib, path, fs, k) :: d.typ != "Sub"
    decreases Left(lib, path), k
  {
    if k > 0 {
      LeavesHaveNoInstance(lib, path, fs, k - 1);
      var f := fs[|fs| - 1];
      var e := f.t.elements[k - 1];
      if e.IsSub() {
        LeftShrinks(lib, path, f.t.name);
        assert e in f.t.elements && Fits(lib, e) && Sound(lib, path + [f.t.name], e.ref.value);
        var sub := Find(lib, e.ref.value).value;
        LeavesHaveNoInstance(lib, path + [f.t.name], fs + [Frame(sub, e)], |sub.elements|);
      }
    }
  }

  lemma {:induction false} RootLeavesHaveNoInstance(lib: Library, root: seq<Element>, k: nat)
    requires RootFits(lib, root) && k <= |root|
    ensures forall d | d in RootLeaves(lib, root, k) :: d.typ != "Sub"
  {
    if k > 0 {
      RootLeavesHaveNoInstance(lib, root, k - 1);
      if root[k - 1].IsSub() {
        var sub := Find(lib, root[k - 1].ref.value).value;
        LeavesHaveNoInstance(lib, [], [Frame(sub, root[k - 1])], |sub.elements|);
      }
    }
  }
}
