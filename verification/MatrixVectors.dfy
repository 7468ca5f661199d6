/** Vectors of matrices, and how they pass through datasets of named vectors. */
module MatrixVectors {
  import opened Complex
  import opened MatrixNames
  import opened Options

  class DataVector {
    const name: string
    const values: seq<Complex>
    var requested: int

    constructor (name: string, values: seq<Complex>)
      ensures this.name == name && this.values == values && requested == 0
    {
      this.name, this.values, requested := name, values, 0;
    }
  }

  class MatVec {
    const name: string
    const data: array3<Complex>

    /** Zero matrices. */
    constructor (name: string, size: nat, rows: nat, cols: nat)
      ensures this.name == name && fresh(data)
      ensures data.Length0 == size && data.Length1 == rows && data.Length2 == cols
      ensures forall i, r, c | 0 <= i < size && 0 <= r < rows && 0 <= c < cols :: data[i, r, c] == Zero
    {
      this.name := name;
      data := new Complex[size, rows, cols]((i, r, c) => Zero);
    }

    /** The vector of the elements at (r, c). */
    ghost function Elements(r: nat, c: nat): seq<Complex>
      requires r < data.Length1 && c < data.Length2
      reads data
    {
      seq(data.Length0, i requires 0 <= i < data.Length0 reads data => data[i, r, c])
    }

    method Set(v: seq<Complex>, r: nat, c: nat)
      requires |v| == data.Length0 && r < data.Length1 && c < data.Length2
      modifies data
      ensures Elements(r, c) == v
      ensures forall p: nat, q: nat | p < data.Length1 && q < data.Length2 && (p, q) != (r, c) :: Elements(p, q) == old(Elements(p, q))
    {
      for i := 0 to |v|
        invariant forall k | 0 <= k < i :: data[k, r, c] == v[k]
        invariant forall k, p, q | 0 <= k < data.Length0 && 0 <= p < data.Length1 && 0 <= q < data.Length2 && (p, q) != (r, c) ::
          data[k, p, q] == old(data[k, p, q])
      {
        data[i, r, c] := v[i];
      }
    }

    method Get(r: nat, c: nat) returns (v: seq<Complex>)
      requires r < data.Length1 && c < data.Length2
      ensures v == Elements(r, c)
    {
      v := [];
      for i := 0 to data.Length0
        invariant |v| == i && forall k | 0 <= k < i :: v[k] == data[k, r, c]
      {
        v := v + [data[i, r, c]];
      }
    }
  }

  // ------------------------------------------------------------------- export

  /** The vector carries the elements at (r, c). */
  ghost predicate Carries(v: DataVector, mv: MatVec, r: nat, c: nat)
    reads mv.data
  {
    r < mv.data.Length1 && c < mv.data.Length2 && v.name == MatrixString(mv.name, r, c) && v.values == mv.Elements(r, c)
  }

  ghost predicate Exported(list: seq<DataVector>, mv: MatVec, r: nat, c: nat)
    reads mv.data
  {
    exists v | v in list :: Carries(v, mv, r, c)
  }

  ghost predicate From(v: DataVector, mv: MatVec)
    reads mv.data
  {
    exists r: nat, c: nat :: Carries(v, mv, r, c)
  }

  /** The vectors are different and carry elements of mv. */
  ghost predicate AllFrom(list: seq<DataVector>, mv: MatVec)
    reads mv.data
  {
    (forall v | v in list :: From(v, mv)) && forall i, j | 0 <= i < j < |list| :: list[i] != list[j]
  }

  method ExportElement(mv: MatVec, r: nat, c: nat, list: seq<DataVector>) returns (more: seq<DataVector>)
    requires r < mv.data.Length1 && c < mv.data.Length2 && AllFrom(list, mv)
    ensures |more| == |list| + 1 && AllFrom(more, mv) && Exported(more, mv, r, c)
    ensures forall v | v in more :: v in list || fresh(v)
    ensures forall p, q | Exported(list, mv, p, q) :: Exported(more, mv, p, q)
    ensures forall v | v in more && fresh(v) :: v.requested == 0
  {
    var values := mv.Get(r, c);
    var t := new DataVector(MatrixString(mv.name, r, c), values);
    assert Carries(t, mv, r, c);
    more := [t] + list;
    assert t in more && forall v | v in list :: v in more;
  }

  method ExportRow(mv: MatVec, r: nat, list: seq<DataVector>) returns (more: seq<DataVector>)
    requires r < mv.data.Length1 && AllFrom(list, mv)
    ensures |more| == |list| + mv.data.Length2 && AllFrom(more, mv)
    ensures forall q | 0 <= q < mv.data.Length2 :: Exported(more, mv, r, q)
    ensures forall v | v in more :: v in list || fresh(v)
    ensures forall p, q | Exported(list, mv, p, q) :: Exported(more, mv, p, q)
  {
    hide AllFrom, Exported;
    more := list;
    for c := 0 to mv.data.Length2
      invariant |more| == |list| + c && AllFrom(more, mv)
      invariant forall q | 0 <= q < c :: Exported(more, mv, r, q)
      invariant forall v | v in more :: v in list || fresh(v)
      invariant forall p, q | Exported(list, mv, p, q) :: Exported(more, mv, p, q)
    {
      more := ExportElement(mv, r, c, more);
    }
  }

  /** The first r rows are in the list. */
  ghost predicate RowsExported(list: seq<DataVector>, mv: MatVec, r: nat)
    reads mv.data
  {
    forall p, q | 0 <= p < r && 0 <= q < mv.data.Length2 :: Exported(list, mv, p, q)
  }

  /** dataVector: a named vector for every element. */
  method Export(mv: MatVec) returns (list: seq<DataVector>)
    ensures |list| == mv.data.Length1 * mv.data.Length2
    ensures AllFrom(list, mv) && RowsExported(list, mv, mv.data.Length1)
    ensures forall v | v in list :: fresh(v)
  {
    list := [];
    for r := 0 to mv.data.Length1
      invariant |list| == r * mv.data.Length2
      invariant AllFrom(list, mv) && RowsExported(list, mv, r)
      invariant forall v | v in list :: fresh(v)
    {
      hide AllFrom, Exported;
      assert (r + 1) * mv.data.Length2 == r * mv.data.Length2 + mv.data.Length2;
      list := ExportRow(mv, r, list);
    }
  }

  // ------------------------------------------------------------------- import

  /** The vector is named as an element of matrices. */
  predicate IsElement(v: DataVector) { MatrixIndex(v.name).Some? }

  function IndexOfVector(v: DataVector): Index
    requires IsElement(v)
  {
    MatrixIndex(v.name).value
  }

  /** v is an element of the same vector of matrices as w, and as long. */
  predicate Alike(v: DataVector, w: DataVector)
    requires IsElement(w)
  {
    IsElement(v) && IndexOfVector(v).name == IndexOfVector(w).name && |v.values| == |w.values|
  }

  /** The position of the first element of matrices. */
  function FirstElement(list: seq<DataVector>): (k: nat)
    ensures k <= |list| && (k < |list| ==> IsElement(list[k])) && forall i | 0 <= i < k :: !IsElement(list[i])
  {
    if list == [] then 0
    else
      var last := |list| - 1;
      var k := FirstElement(list[..last]);
      if k < last then k else if IsElement(list[last]) then last else last + 1
  }

  ghost predicate Different(list: seq<DataVector>) {
    forall i, j | 0 <= i < j < |list| :: list[i] != list[j]
  }

  /** v belongs together with the first element of matrices. */
  predicate InGroup(list: seq<DataVector>, v: DataVector) {
    var k := FirstElement(list);
    k < |list| && Alike(v, list[k])
  }

  /** The indices in the group start from one, as the matrices demand; other ones
      fail an assertion of the import. */
  ghost predicate OneBased(list: seq<DataVector>) {
    forall v | v in list && InGroup(list, v) :: IndexOfVector(v).r >= 0 && IndexOfVector(v).c >= 0
  }

  /** Before position i exactly the vectors like w are marked. */
  ghost predicate MarkedTo(list: seq<DataVector>, i: nat, w: DataVector, n: int)
    requires IsElement(w)
    reads list
  {
    forall j | 0 <= j < |list| :: list[j].requested == if j < i && Alike(list[j], w) then n else 0
  }

  /** r and c are the largest indices of vectors like w before position i. */
  ghost predicate Largest(list: seq<DataVector>, i: nat, w: DataVector, r: int, c: int)
    requires IsElement(w) && i <= |list|
  {
    && (forall j | 0 <= j < i && Alike(list[j], w) :: IndexOfVector(list[j]).r <= r && IndexOfVector(list[j]).c <= c)
    && (exists j | 0 <= j < i && Alike(list[j], w) :: IndexOfVector(list[j]).r == r)
    && (exists j | 0 <= j < i && Alike(list[j], w) :: IndexOfVector(list[j]).c == c)
  }

  function Max(x: int, y: int): int { if y > x then y else x }

  lemma LargestMore(list: seq<DataVector>, i: nat, w: DataVector, r: int, c: int)
    requires IsElement(w) && i < |list| && Largest(list, i, w, r, c)
    ensures if Alike(list[i], w) then Largest(list, i + 1, w, Max(r, IndexOfVector(list[i]).r), Max(c, IndexOfVector(list[i]).c))
            else Largest(list, i + 1, w, r, c)
  {
    hide MatrixIndex;
  }

  lemma LargestFirst(list: seq<DataVector>, i: nat)
    requires i < |list| && IsElement(list[i]) && forall j | 0 <= j < i :: !IsElement(list[j])
    ensures Largest(list, i + 1, list[i], IndexOfVector(list[i]).r, IndexOfVector(list[i]).c)
  {
    hide MatrixIndex;
    assert Alike(list[i], list[i]);
  }

  method SetMark(list: seq<DataVector>, i: nat, w: DataVector, n: int)
    requires Different(list) && i < |list| && IsElement(w) && Alike(list[i], w) && MarkedTo(list, i, w, n)
    modifies list[i]
    ensures MarkedTo(list, i + 1, w, n)
  {
    hide MatrixIndex;
    list[i].requested := n;
  }

  lemma NoMark(list: seq<DataVector>, i: nat, w: DataVector, n: int)
    requires i < |list| && IsElement(w) && !Alike(list[i], w) && MarkedTo(list, i, w, n)
    ensures MarkedTo(list, i + 1, w, n)
  {
  }

  ghost predicate Unmarked(list: seq<DataVector>)
    reads list
  {
    forall j | 0 <= j < |list| :: list[j].requested == 0
  }

  lemma UnmarkedIs(list: seq<DataVector>, i: nat, n: int)
    requires Unmarked(list) && i < |list| && IsElement(list[i]) && forall j | 0 <= j < i :: !IsElement(list[j])
    ensures MarkedTo(list, i, list[i], n)
  {
  }

  ghost predicate NoElement(list: seq<DataVector>, i: nat) {
    i <= |list| && forall j | 0 <= j < i :: !IsElement(list[j])
  }

  /** After the first i vectors: the first element of matrices is at k, if there was
      one, and the vectors like it are marked. */
  ghost predicate Marking(list: seq<DataVector>, i: nat, n: int, k: nat, r: int, c: int)
    requires i <= |list|
    reads list
  {
    if k < |list| then k < i && IsElement(list[k]) && NoElement(list, k) && MarkedTo(list, i, list[k], n) && Largest(list, i, list[k], r, c)
    else k == |list| && NoElement(list, i) && Unmarked(list)
  }

  method MarkFirst(list: seq<DataVector>, i: nat, n: int) returns (r: int, c: int)
    requires Different(list) && i < |list| && NoElement(list, i) && Unmarked(list) && IsElement(list[i])
    modifies list[i]
    ensures Marking(list, i + 1, n, i, r, c)
  {
    hide MatrixIndex, Different, MarkedTo, Largest, Alike;
    r, c := IndexOfVector(list[i]).r, IndexOfVector(list[i]).c;
    LargestFirst(list, i);
    UnmarkedIs(list, i, n);
    AlikeItself(list[i]);
    SetMark(list, i, list[i], n);
  }

  method MarkNext(list: seq<DataVector>, i: nat, n: int, k: nat, r0: int, c0: int) returns (r: int, c: int)
    requires Different(list) && i < |list| && k < |list| && Marking(list, i, n, k, r0, c0)
    modifies list[i]
    ensures Marking(list, i + 1, n, k, r, c)
  {
    hide MatrixIndex, Different, MarkedTo, Largest, Alike, NoElement;
    LargestMore(list, i, list[k], r0, c0);
    r, c := r0, c0;
    if Alike(list[i], list[k]) {
      NotAlike(list[i], list[k]);
      var p := IndexOfVector(list[i]);
      if p.r > r { r := p.r; }
      if p.c > c { c := p.c; }
      SetMark(list, i, list[k], n);
    } else {
      NoMark(list, i, list[k], n);
    }
  }

  lemma StillUnmarked(list: seq<DataVector>, i: nat, n: int, k: nat, r: int, c: int)
    requires i < |list| && Marking(list, i, n, k, r, c)
    ensures list[i].requested == 0
    ensures k >= |list| && !IsElement(list[i]) ==> Marking(list, i + 1, n, k, r, c)
  {
    hide MatrixIndex;
  }

  lemma Finished(list: seq<DataVector>, n: int, k: nat, r: int, c: int)
    requires Marking(list, |list|, n, k, r, c)
    ensures k == FirstElement(list)
  {
    hide MatrixIndex;
  }

  /** Marks the group of the first unmarked element of matrices. */
  method MarkGroup(list: seq<DataVector>, n: int) returns (k: nat, r: int, c: int)
    requires Different(list) && n != 0 && Unmarked(list)
    modifies list
    ensures Marking(list, |list|, n, k, r, c) && k == FirstElement(list)
  {
    hide Marking, MatrixIndex, Different, NoElement, Unmarked, FirstElement;
    k, r, c := |list|, -1, -1;
    NothingMarked(list, n, r, c);
    for i := 0 to |list|
      invariant Marking(list, i, n, k, r, c)
    {
      StillUnmarked(list, i, n, k, r, c);
      if list[i].requested == 0 {
        if k < |list| {
          r, c := MarkNext(list, i, n, k, r, c);
        } else if MatrixIndex(list[i].name).Some? {
          NothingYet(list, i, n, k, r, c);
          r, c := MarkFirst(list, i, n);
          k := i;
        }
      }
    }
    Finished(list, n, k, r, c);
  }

  lemma NothingMarked(list: seq<DataVector>, n: int, r: int, c: int)
    requires Unmarked(list)
    ensures Marking(list, 0, n, |list|, r, c)
  {
  }

  lemma NothingYet(list: seq<DataVector>, i: nat, n: int, k: nat, r: int, c: int)
    requires i <= |list| && k >= |list| && Marking(list, i, n, k, r, c)
    ensures NoElement(list, i) && Unmarked(list)
  {
  }

  lemma NotAlike(v: DataVector, w: DataVector)
    requires IsElement(w)
    ensures Alike(v, w) ==> IsElement(v)
  {
  }

  lemma AlikeItself(v: DataVector)
    requires IsElement(v)
    ensures Alike(v, v)
  {
  }

  /** The last position before i of a vector like w for the element (r, c), or -1. */
  ghost function LastFor(list: seq<DataVector>, w: DataVector, r: int, c: int, i: nat): (k: int)
    requires IsElement(w) && i <= |list|
    ensures -1 <= k < i
    ensures k >= 0 ==> Alike(list[k], w) && IndexOfVector(list[k]).r == r && IndexOfVector(list[k]).c == c
  {
    if i == 0 then -1
    else if Alike(list[i - 1], w) && IndexOfVector(list[i - 1]).r == r && IndexOfVector(list[i - 1]).c == c then i - 1
    else LastFor(list, w, r, c, i - 1)
  }

  function Zeros(n: nat): seq<Complex> { seq(n, i => Zero) }

  /** mv holds, for every element, the last of the first i vectors for it. */
  ghost predicate Collected(list: seq<DataVector>, w: DataVector, mv: MatVec, i: nat)
    requires IsElement(w) && i <= |list|
    reads mv.data
  {
    forall r: nat, c: nat | r < mv.data.Length1 && c < mv.data.Length2 ::
      var k := LastFor(list, w, r, c, i);
      mv.Elements(r, c) == if k >= 0 then list[k].values else Zeros(mv.data.Length0)
  }

  /** Vectors before position i that are like w were taken, the others are as before. */
  ghost predicate TakenTo(list: seq<DataVector>, i: nat, w: DataVector, n: int)
    requires IsElement(w)
    reads list
  {
    forall j | 0 <= j < |list| :: list[j].requested == if !Alike(list[j], w) then 0 else if j < i then -1 else n
  }

  /** The indices of vectors like w do not exceed the matrices, and their length is right. */
  ghost predicate FitsIn(list: seq<DataVector>, w: DataVector, mv: MatVec)
    requires IsElement(w)
  {
    forall v | v in list && Alike(v, w) ::
      IndexOfVector(v).r < mv.data.Length1 && IndexOfVector(v).c < mv.data.Length2 && |v.values| == mv.data.Length0
  }

  /** The first i vectors like w have indices from one on. */
  ghost predicate OneBasedTo(list: seq<DataVector>, i: nat, w: DataVector)
    requires IsElement(w) && i <= |list|
  {
    forall j | 0 <= j < i && Alike(list[j], w) :: IndexOfVector(list[j]).r >= 0 && IndexOfVector(list[j]).c >= 0
  }

  lemma OneBasedIs(list: seq<DataVector>, k: nat)
    requires k < |list| && k == FirstElement(list)
    ensures OneBasedTo(list, |list|, list[k]) <==> OneBased(list)
  {
    hide MatrixIndex;
    if OneBased(list) {
      forall j | 0 <= j < |list| && Alike(list[j], list[k])
        ensures IndexOfVector(list[j]).r >= 0 && IndexOfVector(list[j]).c >= 0
      {
        assert list[j] in list && InGroup(list, list[j]);
      }
    }
  }

  lemma NotOneBased(list: seq<DataVector>, i: nat, w: DataVector)
    requires i < |list| && IsElement(w) && Alike(list[i], w) && (IndexOfVector(list[i]).r < 0 || IndexOfVector(list[i]).c < 0)
    ensures !OneBasedTo(list, |list|, w)
  {
    hide MatrixIndex;
  }

  method TakeVector(list: seq<DataVector>, i: nat, w: DataVector, n: int, mv: MatVec) returns (ok: bool)
    requires Different(list) && i < |list| && IsElement(w) && Alike(list[i], w) && FitsIn(list, w, mv)
    requires TakenTo(list, i, w, n) && Collected(list, w, mv, i)
    modifies list[i], mv.data
    ensures ok <==> IndexOfVector(list[i]).r >= 0 && IndexOfVector(list[i]).c >= 0
    ensures ok ==> TakenTo(list, i + 1, w, n) && Collected(list, w, mv, i + 1)
  {
    hide MatrixIndex;
    var p := IndexOfVector(list[i]);
    ok := p.r >= 0 && p.c >= 0;
    if ok {
      mv.Set(list[i].values, p.r, p.c);
      list[i].requested := -1;
    }
  }

  lemma SkipVector(list: seq<DataVector>, i: nat, w: DataVector, n: int, mv: MatVec)
    requires i < |list| && IsElement(w) && !Alike(list[i], w) && TakenTo(list, i, w, n) && Collected(list, w, mv, i)
    ensures TakenTo(list, i + 1, w, n) && Collected(list, w, mv, i + 1)
  {
    hide MatrixIndex;
  }

  lemma RequestedIff(list: seq<DataVector>, i: nat, w: DataVector, n: int)
    requires i < |list| && IsElement(w) && TakenTo(list, i, w, n) && n != 0
    ensures list[i].requested == n <==> Alike(list[i], w)
  {
    hide MatrixIndex;
  }

  /** Collects the marked vectors; stops at an index less than one. */
  method CollectGroup(list: seq<DataVector>, w: DataVector, n: int, mv: MatVec) returns (ok: bool)
    requires Different(list) && IsElement(w) && n > 0 && FitsIn(list, w, mv)
    requires TakenTo(list, 0, w, n) && Collected(list, w, mv, 0)
    modifies list, mv.data
    ensures ok <==> OneBasedTo(list, |list|, w)
    ensures ok ==> TakenTo(list, |list|, w, n) && Collected(list, w, mv, |list|)
  {
    hide MatrixIndex, Different, FitsIn, TakenTo, Collected, Alike;
    for i := 0 to |list|
      invariant TakenTo(list, i, w, n) && Collected(list, w, mv, i) && OneBasedTo(list, i, w)
    {
      RequestedIff(list, i, w, n);
      if list[i].requested == n {
        ok := TakeVector(list, i, w, n, mv);
        if !ok {
          NotOneBased(list, i, w);
          return;
        }
      } else {
        SkipVector(list, i, w, n, mv);
      }
    }
    ok := true;
  }

  /** mv is made of the vectors like w: as large as their indices ask for, and
      holding the last vector for every element. */
  ghost predicate Imported(list: seq<DataVector>, w: DataVector, mv: MatVec)
    requires IsElement(w)
    reads mv.data
  {
    && mv.name == IndexOfVector(w).name && mv.data.Length0 == |w.values|
    && Largest(list, |list|, w, mv.data.Length1 - 1, mv.data.Length2 - 1)
    && Collected(list, w, mv, |list|)
  }

  lemma Fits(list: seq<DataVector>, w: DataVector, mv: MatVec, r: int, c: int)
    requires IsElement(w) && Largest(list, |list|, w, r, c)
    requires mv.data.Length0 == |w.values| && mv.data.Length1 >= r + 1 && mv.data.Length2 >= c + 1
    ensures FitsIn(list, w, mv)
  {
    hide MatrixIndex;
  }

  lemma LargestAreIndices(list: seq<DataVector>, w: DataVector, r: int, c: int)
    requires IsElement(w) && OneBasedTo(list, |list|, w) && Largest(list, |list|, w, r, c)
    ensures r >= 0 && c >= 0
  {
    hide MatrixIndex;
  }

  lemma MarkedIsTaken(list: seq<DataVector>, w: DataVector, n: int)
    requires IsElement(w) && MarkedTo(list, |list|, w, n)
    ensures TakenTo(list, 0, w, n)
  {
    hide MatrixIndex;
  }

  /** One group of vectors becomes a vector of matrices. */
  method ImportGroup(list: seq<DataVector>, k: nat, r: int, c: int, n: int) returns (ok: bool, mv: MatVec)
    requires Different(list) && n > 0 && k < |list| && k == FirstElement(list)
    requires MarkedTo(list, |list|, list[k], n) && Largest(list, |list|, list[k], r, c)
    modifies list
    ensures ok <==> OneBased(list)
    ensures fresh(mv.data) && (ok ==> Imported(list, list[k], mv) && TakenTo(list, |list|, list[k], n))
  {
    hide MatrixIndex, Different, OneBased, OneBasedTo, Largest, Alike;
    mv := new MatVec(IndexOfVector(list[k]).name, |list[k].values|, if r >= 0 then r + 1 else 0, if c >= 0 then c + 1 else 0);
    Fits(list, list[k], mv, r, c);
    MarkedIsTaken(list, list[k], n);
    ok := CollectGroup(list, list[k], n, mv);
    OneBasedIs(list, k);
    if ok { LargestAreIndices(list, list[k], r, c); }
  }

  /** What an import leaves: nothing without elements of matrices, else the group of
      the first one. */
  ghost predicate Outcome(list: seq<DataVector>, eqns: seq<MatVec>)
    reads list, set mv | mv in eqns :: mv.data
  {
    var k := FirstElement(list);
    if k == |list| then eqns == [] && Unmarked(list)
    else |eqns| == 1 && Imported(list, list[k], eqns[0]) && TakenTo(list, |list|, list[k], 1)
  }

  lemma NothingFound(list: seq<DataVector>, r: int, c: int)
    requires Marking(list, |list|, 1, |list|, r, c) && FirstElement(list) == |list|
    ensures Outcome(list, []) && OneBased(list)
  {
  }

  /** The group of the first element of matrices becomes the first equation. */
  method ImportFirst(list: seq<DataVector>, k: nat, r: int, c: int) returns (ok: bool, eqns: seq<MatVec>)
    requires Different(list) && k < |list| && k == FirstElement(list) && Marking(list, |list|, 1, k, r, c)
    modifies list
    ensures ok <==> OneBased(list)
    ensures |eqns| == 1 && fresh(eqns[0].data) && (ok ==> Outcome(list, eqns))
  {
    hide MatrixIndex, Different, Unmarked, Largest, MarkedTo, TakenTo, Imported, NoElement, OneBased;
    var mv;
    ok, mv := ImportGroup(list, k, r, c, 1);
    eqns := [mv];
  }

  /** findMatrixVectors: the loop ends when no candidate is left over, which is the
      case after the first group already.  An index less than one fails an assertion. */
  method FindMatrixVectors(list: seq<DataVector>) returns (ok: bool, eqns: seq<MatVec>)
    requires Different(list)
    modifies list
    ensures ok <==> OneBased(list)
    ensures ok ==> Outcome(list, eqns) && forall mv | mv in eqns :: fresh(mv.data)
  {
    hide Marking, Outcome, OneBased, Different, Unmarked, FirstElement, MatrixIndex;
    ResetMarks(list);
    ok, eqns := true, [];
    var n, again := 1, true;
    while again
      invariant |eqns| <= 1 && (eqns != [] ==> fresh(eqns[0].data))
      invariant if again then n == 1 && ok && eqns == [] && Unmarked(list)
                else (ok <==> OneBased(list)) && (ok ==> Outcome(list, eqns))
      decreases again
    {
      var cand := false;
      var k, r, c;
      k, r, c := MarkGroup(list, n);
      if k < |list| {
        cand := true;
        ok, eqns := ImportFirst(list, k, r, c);
        if !ok { return; }
        cand := false;
      } else {
        NothingFound(list, r, c);
      }
      n := n + 1;
      again := cand;
    }
  }

  method ResetMarks(list: seq<DataVector>)
    modifies list
    ensures Unmarked(list)
  {
    for i := 0 to |list|
      invariant forall j | 0 <= j < i :: list[j].requested == 0
    {
      list[i].requested := 0;
    }
  }

  /** After an import every element of matrices is in a group exactly if all of them
      have one name and one length: the loop never comes to a second group. */
  lemma AllTakenIff(list: seq<DataVector>, eqns: seq<MatVec>)
    requires Outcome(list, eqns)
    ensures (forall v | v in list && IsElement(v) :: v.requested == -1)
       <==> (forall v, w | v in list && w in list && IsElement(v) && IsElement(w) :: Alike(v, w))
  {
    hide MatrixIndex, Imported;
    var k := FirstElement(list);
    if k < |list| {
      var w := list[k];
      if forall v | v in list && IsElement(v) :: v.requested == -1 {
        forall v | v in list && IsElement(v)
          ensures Alike(v, w)
        {
          var j :| 0 <= j < |list| && list[j] == v;
        }
      }
      if forall v | v in list && IsElement(v) :: Alike(v, w) {
        forall v | v in list && IsElement(v)
          ensures v.requested == -1
        {
          var j :| 0 <= j < |list| && list[j] == v;
        }
      }
      assert w in list;
    } else {
      forall v | v in list
        ensures !IsElement(v)
      {
        var j :| 0 <= j < |list| && list[j] == v;
      }
    }
  }

  /** Where a vector named n[x,y] goes: to row x and column y, counted from one, unless
      a later one has the same indices. */
  lemma ImportedElement(list: seq<DataVector>, w: DataVector, mv: MatVec, k: nat, n: string, x: string, y: string)
    requires IsElement(w) && Imported(list, w, mv) && k < |list| && |list[k].values| == |w.values|
    requires n == IndexOfVector(w).name && n != "" && '[' !in n && x != "" && AllDigits(x) && y != "" && AllDigits(y)
    requires list[k].name == n + "[" + x + "," + y + "]" && Value(x) > 0 && Value(y) > 0
    requires forall j | k < j < |list| && Alike(list[j], w) :: IndexOfVector(list[j]).r != Value(x) - 1 || IndexOfVector(list[j]).c != Value(y) - 1
    ensures Value(x) <= mv.data.Length1 && Value(y) <= mv.data.Length2
    ensures mv.Elements(Value(x) - 1, Value(y) - 1) == list[k].values
  {
    IndexMeans(n, x, y);
    hide MatrixIndex, Value, AllDigits;
    var r, c := Value(x) - 1, Value(y) - 1;
    assert Alike(list[k], w) && IndexOfVector(list[k]).r == r && IndexOfVector(list[k]).c == c;
    InLargest(list, w, mv.data.Length1 - 1, mv.data.Length2 - 1, k);
    LastIs(list, w, r, c, k, |list|);
  }

  lemma InLargest(list: seq<DataVector>, w: DataVector, r: int, c: int, k: nat)
    requires IsElement(w) && Largest(list, |list|, w, r, c) && k < |list| && Alike(list[k], w)
    ensures IndexOfVector(list[k]).r <= r && IndexOfVector(list[k]).c <= c
  {
    hide MatrixIndex;
  }

  lemma {:induction false} LastIs(list: seq<DataVector>, w: DataVector, r: int, c: int, k: nat, i: nat)
    requires IsElement(w) && k < i <= |list| && Alike(list[k], w) && IndexOfVector(list[k]).r == r && IndexOfVector(list[k]).c == c
    requires forall j | k < j < i && Alike(list[j], w) :: IndexOfVector(list[j]).r != r || IndexOfVector(list[j]).c != c
    ensures LastFor(list, w, r, c, i) == k
  {
    hide MatrixIndex;
    if k < i - 1 { LastIs(list, w, r, c, k, i - 1); }
  }

  /** Of two vectors named S[1,1] and Y[1,1] the second is left over. */
  lemma SecondGroupIsLost(s: DataVector, y: DataVector, eqns: seq<MatVec>)
    requires s.name == MatrixString("S", 0, 0) && y.name == MatrixString("Y", 0, 0) && Outcome([s, y], eqns)
    ensures IsElement(y) && y.requested != -1
  {
    MatrixNameRoundTrip("S", 0, 0);
    MatrixNameRoundTrip("Y", 0, 0);
    hide MatrixIndex, Imported;
    assert FirstElement([s, y]) == 0;
    assert [s, y][0] == s && [s, y][1] == y;
  }

  // --------------------------------------------------------------- round trip

  lemma CarriedIndex(v: DataVector, mv: MatVec, r: nat, c: nat)
    requires Carries(v, mv, r, c) && mv.name != "" && '[' !in mv.name
    ensures MatrixIndex(v.name) == Some(Index(mv.name, r, c))
  {
    MatrixNameRoundTrip(mv.name, r, c);
  }

  lemma FromIndex(v: DataVector, mv: MatVec)
    requires From(v, mv) && mv.name != "" && '[' !in mv.name
    ensures IsElement(v) && IndexOfVector(v).name == mv.name && IndexOfVector(v).r >= 0 && IndexOfVector(v).c >= 0
    ensures var p := IndexOfVector(v); Carries(v, mv, p.r, p.c)
    ensures |v.values| == mv.data.Length0
  {
    var r: nat, c: nat :| Carries(v, mv, r, c);
    CarriedIndex(v, mv, r, c);
  }

  lemma AllAlike(list: seq<DataVector>, mv: MatVec)
    requires AllFrom(list, mv) && mv.name != "" && '[' !in mv.name && list != []
    ensures FirstElement(list) == 0 && forall v | v in list :: Alike(v, list[0])
    ensures OneBased(list)
  {
    forall v | v in list
      ensures IsElement(v) && IndexOfVector(v).name == mv.name && |v.values| == mv.data.Length0
      ensures IndexOfVector(v).r >= 0 && IndexOfVector(v).c >= 0
    {
      FromIndex(v, mv);
    }
    hide MatrixIndex;
    assert list[0] in list;
  }

  /** What was exported has the size and the elements it came from. */
  lemma ImportedIsExported(list: seq<DataVector>, mv: MatVec, res: MatVec)
    requires AllFrom(list, mv) && RowsExported(list, mv, mv.data.Length1) && mv.name != "" && '[' !in mv.name
    requires mv.data.Length1 > 0 && mv.data.Length2 > 0 && list != [] && IsElement(list[0]) && Imported(list, list[0], res)
    ensures res.name == mv.name && res.data.Length0 == mv.data.Length0
    ensures res.data.Length1 == mv.data.Length1 && res.data.Length2 == mv.data.Length2
    ensures forall r: nat, c: nat | r < mv.data.Length1 && c < mv.data.Length2 :: res.Elements(r, c) == mv.Elements(r, c)
  {
    hide MatrixIndex;
    AllAlike(list, mv);
    FromIndex(list[0], mv);
    SameSize(list, mv, res.data.Length1 - 1, res.data.Length2 - 1);
    forall r: nat, c: nat | r < mv.data.Length1 && c < mv.data.Length2
      ensures res.Elements(r, c) == mv.Elements(r, c)
    {
      ExportedElement(list, mv, r, c);
    }
  }

  lemma SameSize(list: seq<DataVector>, mv: MatVec, r: int, c: int)
    requires AllFrom(list, mv) && RowsExported(list, mv, mv.data.Length1) && mv.name != "" && '[' !in mv.name
    requires mv.data.Length1 > 0 && mv.data.Length2 > 0 && list != [] && IsElement(list[0]) && Largest(list, |list|, list[0], r, c)
    ensures r == mv.data.Length1 - 1 && c == mv.data.Length2 - 1
  {
    AllAlike(list, mv);
    var p, q := mv.data.Length1 - 1, mv.data.Length2 - 1;
    assert Exported(list, mv, p, q);
    var v :| v in list && Carries(v, mv, p, q);
    CarriedIndex(v, mv, p, q);
    hide MatrixIndex;
    var i :| 0 <= i < |list| && list[i] == v;
    assert p <= r && q <= c;
    forall j | 0 <= j < |list|
      ensures IsElement(list[j]) && IndexOfVector(list[j]).r <= p && IndexOfVector(list[j]).c <= q
    {
      FromIndex(list[j], mv);
    }
  }

  lemma ExportedElement(list: seq<DataVector>, mv: MatVec, r: nat, c: nat)
    requires AllFrom(list, mv) && RowsExported(list, mv, mv.data.Length1) && mv.name != "" && '[' !in mv.name
    requires r < mv.data.Length1 && c < mv.data.Length2 && list != [] && IsElement(list[0])
    ensures var k := LastFor(list, list[0], r, c, |list|); k >= 0 && list[k].values == mv.Elements(r, c)
  {
    AllAlike(list, mv);
    assert Exported(list, mv, r, c);
    var v :| v in list && Carries(v, mv, r, c);
    CarriedIndex(v, mv, r, c);
    hide MatrixIndex;
    var i :| 0 <= i < |list| && list[i] == v;
    LastFound(list, list[0], r, c, i, |list|);
    var k := LastFor(list, list[0], r, c, |list|);
    FromIndex(list[k], mv);
  }

  lemma {:induction false} LastFound(list: seq<DataVector>, w: DataVector, r: int, c: int, j: nat, i: nat)
    requires IsElement(w) && j < i <= |list| && Alike(list[j], w) && IndexOfVector(list[j]).r == r && IndexOfVector(list[j]).c == c
    ensures LastFor(list, w, r, c, i) >= j
  {
    hide MatrixIndex;
    if j < i - 1 { LastFound(list, w, r, c, j, i - 1); }
  }

  /** Exporting a vector of matrices and importing the vectors rebuilds it. */
  method ThereAndBack(mv: MatVec) returns (res: MatVec)
    requires mv.name != "" && '[' !in mv.name && mv.data.Length1 > 0 && mv.data.Length2 > 0
    ensures res.name == mv.name && fresh(res.data) && res.data.Length0 == mv.data.Length0
    ensures res.data.Length1 == mv.data.Length1 && res.data.Length2 == mv.data.Length2
    ensures forall r: nat, c: nat | r < mv.data.Length1 && c < mv.data.Length2 :: res.Elements(r, c) == mv.Elements(r, c)
  {
    var list := Export(mv);
    assert mv.data.Length1 * mv.data.Length2 > 0;
    AllAlike(list, mv);
    assert forall i | 0 <= i < |list| :: list[i] in list;
    assert forall i | 0 <= i < |list| :: fresh(list[i]);
    var ok, eqns := FindMatrixVectors(list);
    res := eqns[0];
    ImportedIsExported(list, mv, res);
  }
}
