/** The hash table of keyed values and its iterator. */
module HashTables {
  import opened Options

  const HASH_MIN_SIZE: nat := 4

  datatype Entry<V> = Entry(code: int, key: string, value: V)

  type Coding = string -> int

  /** The low bits of a code, also of a negative one. */
  function Location(code: int, buckets: nat): (n: nat)
    requires buckets > 0
    ensures n < buckets
  {
    code % buckets
  }

  ghost predicate PowerOfTwo(n: nat) {
    n == 1 || (n > 1 && n % 2 == 0 && PowerOfTwo(n / 2))
  }

  lemma {:induction false} PowerDivides(p: nat, b: nat) returns (m: nat)
    requires PowerOfTwo(p) && PowerOfTwo(b) && p < b
    ensures b == 2 * p * m
  {
    if p == 1 {
      m := b / 2;
    } else {
      m := PowerDivides(p / 2, b / 2);
      assert b == 2 * (2 * (p / 2) * m) == 2 * p * m;
    }
  }

  /** Two multiples of p that enclose x, one p apart, give the quotient. */
  lemma QuotientIs(x: int, p: nat, d: int)
    requires p > 0 && d * p <= x < d * p + p
    ensures x / p == d
  {
    var f := x / p;
    assert f * p <= x < f * p + p;
    assert (f - d) * p < p && (d - f) * p < p;
    Within(f - d, p);
    Within(d - f, p);
  }

  lemma Within(a: int, p: nat)
    requires p > 0 && a * p < p
    ensures a <= 0
  {
  }

  lemma Regroup(q: int, p: nat, m: nat)
    ensures q * (2 * p * m) == 2 * (q * m) * p
  {
    assert q * (2 * p * m) == (2 * (q * m)) * p;
  }

  lemma EvenMultiple(k: int, p: nat, n: nat)
    requires p > 0
    ensures ((2 * k) * p + n) / p == 2 * k + n / p
  {
    var d := n / p;
    assert d * p <= n < d * p + p;
    assert (2 * k + d) * p == (2 * k) * p + d * p;
    QuotientIs((2 * k) * p + n, p, 2 * k + d);
  }

  /** The location has the low bits of the code: every bit below the number of
      buckets is the same, p being the value of the bit. */
  lemma LowBits(code: int, buckets: nat, p: nat)
    requires PowerOfTwo(buckets) && PowerOfTwo(p) && p < buckets
    ensures (Location(code, buckets) / p) % 2 == (code / p) % 2
  {
    var m := PowerDivides(p, buckets);
    hide PowerOfTwo;
    InBucket(code, buckets);
    var q, n := code / buckets, Location(code, buckets);
    hide Location;
    SameFactor(q, buckets, 2 * p * m);
    LowBitsOf(code, p, m, q, n);
  }

  lemma InBucket(code: int, buckets: nat)
    requires buckets > 0
    ensures code == (code / buckets) * buckets + Location(code, buckets)
  {
  }

  lemma SameFactor(q: int, b: int, c: int)
    ensures b == c ==> q * b == q * c
  {
  }

  lemma LowBitsOf(code: int, p: nat, m: nat, q: int, n: nat)
    requires p > 0 && code == q * (2 * p * m) + n
    ensures (n / p) % 2 == (code / p) % 2
  {
    Regroup(q, p, m);
    var k := q * m;
    EvenMultiple(k, p, n);
    var c := code / p;
    assert c == 2 * k + n / p;
  }

  /** Halving the count while doubling the table loses less than one bucket. */
  lemma HalfStep(size: nat, b: nat, n: nat)
    requires n > 1 && b * n <= size < b * (n + 1)
    ensures (2 * b) * (n / 2) <= size < (2 * b) * (n / 2 + 1)
  {
    var h := n / 2;
    assert 2 * h <= n <= 2 * h + 1;
    assert (2 * b) * h == b * (2 * h) <= b * n;
    assert b * (n + 1) <= b * (2 * h + 2) == (2 * b) * (h + 1);
  }

  lemma SmallPower(b: nat)
    requires PowerOfTwo(b) && b < 4
    ensures b <= 2
  {
  }

  /** The number of buckets that hold something. */
  function Filled<V>(table: seq<seq<Entry<V>>>): nat {
    if table == [] then 0
    else Filled(table[..|table| - 1]) + (if table[|table| - 1] != [] then 1 else 0)
  }

  lemma {:induction false} FilledUpdate<V>(table: seq<seq<Entry<V>>>, n: nat, b: seq<Entry<V>>)
    requires n < |table|
    ensures Filled(table[n := b]) == Filled(table) - (if table[n] != [] then 1 else 0) + (if b != [] then 1 else 0)
  {
    var last := |table| - 1;
    if n == last {
      assert table[n := b][..last] == table[..last];
    } else {
      FilledUpdate(table[..last], n, b);
      assert table[n := b][..last] == table[..last][n := b];
    }
  }

  lemma {:induction false} FilledGrown<V>(table: seq<seq<Entry<V>>>, more: seq<seq<Entry<V>>>)
    requires forall i | 0 <= i < |more| :: more[i] == []
    ensures Filled(table + more) == Filled(table)
  {
    if more == [] {
      assert table + more == table;
    } else {
      var last := |more| - 1;
      FilledGrown(table, more[..last]);
      assert (table + more)[..|table + more| - 1] == table + more[..last];
    }
  }

  // --------------------------------------------------------------- the buckets

  ghost predicate DistinctKeys<V>(b: seq<Entry<V>>) {
    forall i, j | 0 <= i < j < |b| :: b[i].key != b[j].key
  }

  /** Every entry of bucket i belongs there and says what the map says. */
  ghost predicate BucketSound<V>(code: Coding, m: map<string, V>, place: int -> int, b: seq<Entry<V>>, i: int) {
    && DistinctKeys(b)
    && forall e | e in b :: e.code == code(e.key) && place(e.code) == i && e.key in m && m[e.key] == e.value
  }

  ghost predicate KeyStored<V>(code: Coding, m: map<string, V>, place: int -> int, table: seq<seq<Entry<V>>>, k: string)
    requires k in m
  {
    var i := place(code(k));
    0 <= i < |table| && Entry(code(k), k, m[k]) in table[i]
  }

  /** The buckets hold exactly the map. */
  ghost predicate Stores<V>(code: Coding, m: map<string, V>, place: int -> int, table: seq<seq<Entry<V>>>) {
    && (forall i | 0 <= i < |table| :: BucketSound(code, m, place, table[i], i))
    && (forall k | k in m :: KeyStored(code, m, place, table, k))
  }

  ghost function AtHome(buckets: nat): int -> int
    requires buckets > 0
  {
    c => Location(c, buckets)
  }

  /** While the table doubles: buckets before n are split. */
  ghost function Splitting(b: nat, n: nat): int -> int
    requires b > 0
  {
    c => if Location(c, b) < n then Location(c, 2 * b) else Location(c, b)
  }

  /** An entry moves, if at all, from bucket n to bucket n + b. */
  lemma SplitLocation(c: int, b: nat)
    requires b > 0
    ensures Location(c, 2 * b) == Location(c, b) || Location(c, 2 * b) == Location(c, b) + b
  {
    var q, r := c / (2 * b), c % (2 * b);
    assert c == q * (2 * b) + r;
    if r < b {
      Remainder(c, b, 2 * q, r);
    } else {
      Remainder(c, b, 2 * q + 1, r - b);
    }
  }

  lemma Remainder(c: int, b: nat, q: int, r: nat)
    requires b > 0 && r < b && c == q * b + r
    ensures c % b == r
  {
    var d := c / b - q;
    assert c == (c / b) * b + c % b;
    assert d * b == r - c % b;
    Multiples(d, b);
  }

  lemma Multiples(d: int, b: int)
    requires b > 0
    ensures (d >= 1 ==> d * b >= b) && (d <= -1 ==> d * b <= -b)
  {
  }

  // ----------------------------------------------------------------- splitting

  /** Removes the entry at idx by moving the last one into its place. */
  function Deleted<V>(b: seq<Entry<V>>, idx: nat): (r: seq<Entry<V>>)
    requires idx < |b|
    ensures |r| == |b| - 1
    ensures forall i | 0 <= i < |r| :: r[i] == b[if i == idx then |b| - 1 else i]
  {
    var last := |b| - 1;
    if idx != last then b[idx := b[last]][..last] else b[..last]
  }

  lemma DeletedKeeps<V>(b: seq<Entry<V>>, idx: nat)
    requires idx < |b| && DistinctKeys(b)
    ensures DistinctKeys(Deleted(b, idx))
    ensures forall e :: e in Deleted(b, idx) <==> e in b && e != b[idx]
    ensures forall i | 0 <= i < idx :: Deleted(b, idx)[i] == b[i]
  {
    var r := Deleted(b, idx);
    forall e | e in b && e != b[idx]
      ensures e in r
    {
      var i :| 0 <= i < |b| && b[i] == e;
      assert r[if i == |b| - 1 then idx else i] == e;
    }
  }

  /** near has the entries that belong to bucket n of the given number of buckets, far
      the others. */
  ghost predicate SplitInto<V>(bucket: seq<Entry<V>>, n: nat, buckets: nat, near: seq<Entry<V>>, far: seq<Entry<V>>)
    requires buckets > 0
  {
    && DistinctKeys(near) && DistinctKeys(far)
    && (forall x | x in near :: x in bucket && Location(x.code, buckets) == n)
    && (forall x | x in far :: x in bucket && Location(x.code, buckets) != n)
    && (forall x | x in bucket :: x in near || x in far)
  }

  lemma FilledSplit<V>(table: seq<seq<Entry<V>>>, n: nat, k: nat, buckets: nat, near: seq<Entry<V>>, far: seq<Entry<V>>)
    requires n < k < |table| && table[k] == [] && buckets > 0 && SplitInto(table[n], n, buckets, near, far)
    ensures Filled(table[n := near][k := far]) ==
            Filled(table) + (if far != [] then 1 else 0) - (if table[n] != [] && near == [] then 1 else 0)
  {
    assert near != [] ==> near[0] in near && near[0] in table[n];
    FilledUpdate(table, n, near);
    FilledUpdate(table[n := near], k, far);
  }

  /** near and far share the entries of the bucket. */
  ghost predicate Parted<V>(bucket: seq<Entry<V>>, near: seq<Entry<V>>, far: seq<Entry<V>>) {
    && DistinctKeys(near) && DistinctKeys(far)
    && (forall x | x in bucket :: x in near || x in far)
    && (forall x | x in near :: x in bucket) && (forall x | x in far :: x in bucket)
    && forall x, y | x in near && y in far :: x.key != y.key
  }

  lemma PartMoves<V>(bucket: seq<Entry<V>>, near: seq<Entry<V>>, far: seq<Entry<V>>, e: nat)
    requires Parted(bucket, near, far) && e < |near|
    ensures Parted(bucket, Deleted(near, e), far + [near[e]])
    ensures forall i | 0 <= i < e :: Deleted(near, e)[i] == near[i]
  {
    var x := near[e];
    DeletedKeeps(near, e);
    assert forall y | y in near && y != x :: y.key != x.key;
    assert x in near && x in far + [x];
    hide Deleted;
  }

  /** The entries of a bucket that stay when the table doubles to the given size, and
      those that move. */
  method SplitBucket<V>(bucket: seq<Entry<V>>, n: nat, buckets: nat) returns (near: seq<Entry<V>>, far: seq<Entry<V>>)
    requires buckets > 0 && DistinctKeys(bucket)
    ensures SplitInto(bucket, n, buckets, near, far)
  {
    near, far := bucket, [];
    var e := 0;
    while e < |near|
      invariant e <= |near| && Parted(bucket, near, far)
      invariant forall x | x in far :: Location(x.code, buckets) != n
      invariant forall i | 0 <= i < e :: Location(near[i].code, buckets) == n
      decreases |near| - e
    {
      hide Parted, DistinctKeys;
      var x := near[e];
      if Location(x.code, buckets) != n {
        PartMoves(bucket, near, far, e);
        far := far + [x];
        near := Deleted(near, e);
      } else {
        e := e + 1;
      }
    }
  }

  /** Splitting bucket n. */
  lemma BucketSplit<V>(code: Coding, m: map<string, V>, b: nat, c: nat, n: nat, table: seq<seq<Entry<V>>>, near: seq<Entry<V>>, far: seq<Entry<V>>)
    requires n < b && c == 2 * b && |table| == c && Stores(code, m, Splitting(b, n), table)
    requires SplitInto(table[n], n, c, near, far)
    ensures table[n + b] == []
    ensures Stores(code, m, Splitting(b, n + 1), table[n := near][n + b := far])
  {
    var t, next := table[n := near][n + b := far], n + 1;
    FarEmpty(code, m, b, n, table);
    forall i | 0 <= i < |t|
      ensures BucketSound(code, m, Splitting(b, next), t[i], i)
    {
      SplitSound(code, m, b, n, table, near, far, i);
    }
    forall k | k in m
      ensures KeyStored(code, m, Splitting(b, next), t, k)
    {
      SplitStored(code, m, b, n, table, near, far, k);
    }
  }

  lemma FarEmpty<V>(code: Coding, m: map<string, V>, b: nat, n: nat, table: seq<seq<Entry<V>>>)
    requires n < b && |table| == 2 * b && Stores(code, m, Splitting(b, n), table)
    ensures table[n + b] == []
  {
    assert BucketSound(code, m, Splitting(b, n), table[n + b], n + b);
    if table[n + b] != [] {
      SplitLocation(table[n + b][0].code, b);
    }
  }

  lemma SplitStored<V>(code: Coding, m: map<string, V>, b: nat, n: nat, table: seq<seq<Entry<V>>>, near: seq<Entry<V>>, far: seq<Entry<V>>, k: string)
    requires n < b && |table| == 2 * b && Stores(code, m, Splitting(b, n), table) && k in m
    requires SplitInto(table[n], n, 2 * b, near, far)
    ensures KeyStored(code, m, Splitting(b, n + 1), table[n := near][n + b := far], k)
  {
    FarEmpty(code, m, b, n, table);
    assert KeyStored(code, m, Splitting(b, n), table, k);
    SplitLocation(code(k), b);
  }

  lemma SplitSound<V>(code: Coding, m: map<string, V>, b: nat, n: nat, table: seq<seq<Entry<V>>>, near: seq<Entry<V>>, far: seq<Entry<V>>, i: nat)
    requires n < b && |table| == 2 * b && Stores(code, m, Splitting(b, n), table) && i < 2 * b
    requires SplitInto(table[n], n, 2 * b, near, far)
    ensures BucketSound(code, m, Splitting(b, n + 1), table[n := near][n + b := far][i], i)
  {
    assert BucketSound(code, m, Splitting(b, n), table[i], i);
    assert BucketSound(code, m, Splitting(b, n), table[n], n);
    forall e | e in table[n := near][n + b := far][i]
      ensures Splitting(b, n + 1)(e.code) == i
    {
      SplitLocation(e.code, b);
    }
  }

  lemma SplitStart<V>(code: Coding, m: map<string, V>, b: nat, table: seq<seq<Entry<V>>>, more: seq<seq<Entry<V>>>)
    requires b > 0 && |table| == b == |more| && Stores(code, m, AtHome(b), table)
    requires forall i | 0 <= i < b :: more[i] == []
    ensures Stores(code, m, Splitting(b, 0), table + more)
  {
    var t := table + more;
    forall i | 0 <= i < |t|
      ensures BucketSound(code, m, Splitting(b, 0), t[i], i)
    {
      if i < b { assert BucketSound(code, m, AtHome(b), table[i], i); }
    }
    forall k | k in m
      ensures KeyStored(code, m, Splitting(b, 0), t, k)
    {
      assert KeyStored(code, m, AtHome(b), table, k);
    }
  }

  lemma SplitEnd<V>(code: Coding, m: map<string, V>, b: nat, table: seq<seq<Entry<V>>>)
    requires b > 0 && |table| == 2 * b && Stores(code, m, Splitting(b, b), table)
    ensures Stores(code, m, AtHome(2 * b), table)
  {
    var c := 2 * b;
    forall i | 0 <= i < |table|
      ensures BucketSound(code, m, AtHome(c), table[i], i)
    {
      assert BucketSound(code, m, Splitting(b, b), table[i], i);
    }
    forall k | k in m
      ensures KeyStored(code, m, AtHome(c), table, k)
    {
      assert KeyStored(code, m, Splitting(b, b), table, k);
    }
  }

  // ------------------------------------------------------------ storing a key

  lemma FoundEntry<V>(code: Coding, m: map<string, V>, buckets: nat, table: seq<seq<Entry<V>>>, key: string)
    requires buckets > 0 && |table| == buckets && Stores(code, m, AtHome(buckets), table)
    ensures key in m <==> exists x :: x in table[Location(code(key), buckets)] && x.code == code(key) && x.key == key
    ensures forall x | x in table[Location(code(key), buckets)] && x.key == key :: key in m && m[key] == x.value
  {
    var n := Location(code(key), buckets);
    assert BucketSound(code, m, AtHome(buckets), table[n], n);
    if key in m {
      assert KeyStored(code, m, AtHome(buckets), table, key);
    }
  }

  /** Storing under a new key. */
  lemma StoresMore<V>(code: Coding, m: map<string, V>, buckets: nat, table: seq<seq<Entry<V>>>, key: string, value: V)
    requires buckets > 0 && |table| == buckets && Stores(code, m, AtHome(buckets), table) && key !in m
    ensures var n := Location(code(key), buckets);
            Stores(code, m[key := value], AtHome(buckets), table[n := table[n] + [Entry(code(key), key, value)]])
  {
    var n, w, e := Location(code(key), buckets), m[key := value], Entry(code(key), key, value);
    var t := table[n := table[n] + [e]];
    forall i | 0 <= i < |t|
      ensures BucketSound(code, w, AtHome(buckets), t[i], i)
    {
      assert BucketSound(code, m, AtHome(buckets), table[i], i);
      assert forall x | x in table[i] :: x.key != key;
    }
    forall k | k in w
      ensures KeyStored(code, w, AtHome(buckets), t, k)
    {
      if k != key { assert KeyStored(code, m, AtHome(buckets), table, k); }
    }
  }

  /** Replacing the value of a stored key. */
  lemma StoresOther<V>(code: Coding, m: map<string, V>, buckets: nat, table: seq<seq<Entry<V>>>, key: string, value: V, e: nat)
    requires buckets > 0 && |table| == buckets && Stores(code, m, AtHome(buckets), table) && key in m
    requires var n := Location(code(key), buckets); e < |table[n]| && table[n][e].code == code(key) && table[n][e].key == key
    ensures var n := Location(code(key), buckets);
            Stores(code, m[key := value], AtHome(buckets), table[n := table[n][e := Entry(code(key), key, value)]])
  {
    var n, w, x := Location(code(key), buckets), m[key := value], Entry(code(key), key, value);
    var t := table[n := table[n][e := x]];
    forall i | 0 <= i < |t|
      ensures BucketSound(code, w, AtHome(buckets), t[i], i)
    {
      assert BucketSound(code, m, AtHome(buckets), table[i], i);
      ReplacedSound(code, m, buckets, table, key, value, e, i);
    }
    forall k | k in w
      ensures KeyStored(code, w, AtHome(buckets), t, k)
    {
      assert k in m && KeyStored(code, m, AtHome(buckets), table, k);
      hide Stores, BucketSound;
      if k == key {
        assert t[n][e] == x;
      } else if Location(code(k), buckets) == n {
        StillThere(table[n], e, x, Entry(code(k), k, m[k]));
      }
    }
  }

  lemma StillThere<V>(b: seq<Entry<V>>, e: nat, x: Entry<V>, y: Entry<V>)
    requires e < |b| && y in b && y.key != b[e].key
    ensures y in b[e := x]
  {
    var i :| 0 <= i < |b| && b[i] == y;
    assert b[e := x][i] == y;
  }

  lemma ReplacedSound<V>(code: Coding, m: map<string, V>, buckets: nat, table: seq<seq<Entry<V>>>, key: string, value: V, e: nat, i: nat)
    requires buckets > 0 && |table| == buckets && Stores(code, m, AtHome(buckets), table) && key in m && i < buckets
    requires var n := Location(code(key), buckets); e < |table[n]| && table[n][e].code == code(key) && table[n][e].key == key
    ensures var n := Location(code(key), buckets);
            BucketSound(code, m[key := value], AtHome(buckets), table[n := table[n][e := Entry(code(key), key, value)]][i], i)
  {
    var n, w, x := Location(code(key), buckets), m[key := value], Entry(code(key), key, value);
    var b := table[n := table[n][e := x]][i];
    assert BucketSound(code, m, AtHome(buckets), table[i], i);
    forall j, k | 0 <= j < k < |b|
      ensures b[j].key != b[k].key
    {
      assert table[i][j].key != table[i][k].key;
    }
    forall y | y in b
      ensures y.code == code(y.key) && AtHome(buckets)(y.code) == i && y.key in w && w[y.key] == y.value
    {
      var j :| 0 <= j < |b| && b[j] == y;
      assert table[i][j] in table[i];
      if i == n && j != e {
        assert j < e ==> table[i][j].key != table[i][e].key;
        assert e < j ==> table[i][e].key != table[i][j].key;
      }
    }
  }

  lemma EmptyTable<V>(code: Coding, buckets: nat, table: seq<seq<Entry<V>>>)
    requires buckets > 0 && |table| == buckets && forall i | 0 <= i < buckets :: table[i] == []
    ensures Stores(code, map[], AtHome(buckets), table) && Filled(table) == 0
  {
    FilledGrown([], table);
    assert [] + table == table;
  }

  class HashTable<V> {
    const code: Coding
    var buckets: nat
    var fill: nat
    var keys: nat
    var table: seq<seq<Entry<V>>>
    ghost var contents: map<string, V>

    ghost predicate Valid()
      reads this
    {
      && buckets >= HASH_MIN_SIZE && PowerOfTwo(buckets) && |table| == buckets
      && Stores(code, contents, AtHome(buckets), table)
      && fill == Filled(table) && keys == |contents|
    }

    constructor (code: Coding, size: nat)
      requires size > 0
      ensures Valid() && contents == map[] && this.code == code
    {
      this.code := code;
      var b := TableSize(size);
      buckets, fill, keys := b, 0, 0;
      table := seq(b, i => []);
      contents := map[];
      new;
      EmptyTable(code, buckets, table);
      hide Stores, Filled;
    }

    /** The largest power of two not above the size, but at least the minimum. */
    static method TableSize(size: nat) returns (b: nat)
      requires size > 0
      ensures PowerOfTwo(b) && size < 2 * b
      ensures if size < HASH_MIN_SIZE then b == HASH_MIN_SIZE else b <= size
    {
      b := 1;
      var n := size;
      while n != 1
        invariant n >= 1 && b >= 1 && PowerOfTwo(b) && b * n <= size < b * (n + 1)
        decreases n
      {
        HalfStep(size, b, n);
        n := n / 2;
        b := 2 * b;
      }
      assert PowerOfTwo(1) && PowerOfTwo(2) && PowerOfTwo(4);
      assert size >= HASH_MIN_SIZE ==> b >= HASH_MIN_SIZE by { if b < HASH_MIN_SIZE { SmallPower(b); } }
      if b < HASH_MIN_SIZE { b := HASH_MIN_SIZE; }
    }

    /** The position of the key in its bucket, or the size of that. */
    method FindKey(n: nat, key: string) returns (e: nat)
      requires n < |table|
      ensures e <= |table[n]|
      ensures e < |table[n]| ==> table[n][e].code == code(key) && table[n][e].key == key
      ensures forall x | x in table[n][..e] :: !(x.code == code(key) && x.key == key)
    {
      e := 0;
      while e < |table[n]|
        invariant e <= |table[n]|
        invariant forall x | x in table[n][..e] :: !(x.code == code(key) && x.key == key)
      {
        if table[n][e].code == code(key) && table[n][e].key == key {
          return;
        }
        assert table[n][..e + 1] == table[n][..e] + [table[n][e]];
        e := e + 1;
      }
    }

    /** The value last put under the key, if any. */
    method Get(key: string) returns (value: Option<V>)
      requires Valid()
      ensures value == if key in contents then Some(contents[key]) else None
    {
      var n := Location(code(key), buckets);
      var e := FindKey(n, key);
      FoundEntry(code, contents, buckets, table, key);
      if e < |table[n]| {
        assert table[n][e] in table[n];
        value := Some(table[n][e].value);
      } else {
        assert table[n][..e] == table[n];
        value := None;
      }
    }

    /** Nothing is stored yet at the place of a code. */
    static predicate FirstOfBucket(c: int, table: seq<seq<Entry<V>>>) {
      |table| > 0 && table[Location(c, |table|)] == []
    }

    /** More than three quarters, as the two shifts of the code have it. */
    static lemma ThreeQuarters(b: nat)
      requires b >= 4 && PowerOfTwo(b)
      ensures b / 2 + b / 4 == b * 3 / 4
    {
      assert b % 2 == 0 && PowerOfTwo(b / 2) && (b / 2) % 2 == 0;
    }

    /** Stores a value; returns the one replaced, and doubles the table when a bucket
        more than three quarters of all comes into use. */
    method Put(key: string, value: V) returns (previous: Option<V>)
      requires Valid()
      modifies this
      ensures Valid() && contents == old(contents)[key := value]
      ensures previous == if key in old(contents) then Some(old(contents)[key]) else None
      ensures buckets == if key !in old(contents) && FirstOfBucket(old(code(key)), old(table)) && old(fill) + 1 > old(buckets) * 3 / 4
                         then 2 * old(buckets) else old(buckets)
    {
      ThreeQuarters(buckets);
      hide Stores, Filled, PowerOfTwo;
      var n := Location(code(key), buckets);
      var e := FindKey(n, key);
      FoundEntry(code, contents, buckets, table, key);
      if e < |table[n]| {
        assert table[n][e] in table[n];
        previous := Some(table[n][e].value);
        ReplaceValue(n, e, key, value);
      } else {
        assert table[n][..e] == table[n];
        previous := None;
        AddEntry(n, key, value);
        if fill > buckets / 2 + buckets / 4 && |table[n]| == 1 {
          Expand();
        }
      }
    }

    method ReplaceValue(n: nat, e: nat, key: string, value: V)
      requires Valid() && n == Location(code(key), buckets) && key in contents
      requires e < |table[n]| && table[n][e].code == code(key) && table[n][e].key == key
      modifies this
      ensures Valid() && contents == old(contents)[key := value] && buckets == old(buckets)
    {
      hide Stores, Filled;
      StoresOther(code, contents, buckets, table, key, value, e);
      FilledUpdate(table, n, table[n][e := Entry(code(key), key, value)]);
      table := table[n := table[n][e := Entry(code(key), key, value)]];
      contents := contents[key := value];
      assert contents.Keys == old(contents).Keys;
    }

    /** Adds an entry for a new key to its bucket. */
    method AddEntry(n: nat, key: string, value: V)
      requires Valid() && n == Location(code(key), buckets) && key !in contents
      modifies this
      ensures Valid() && contents == old(contents)[key := value] && buckets == old(buckets)
      ensures |table[n]| == |old(table)[n]| + 1 && fill == old(fill) + if old(table)[n] == [] then 1 else 0
    {
      hide Stores, Filled;
      StoresMore(code, contents, buckets, table, key, value);
      FilledUpdate(table, n, table[n] + [Entry(code(key), key, value)]);
      table := table[n := table[n] + [Entry(code(key), key, value)]];
      contents := contents[key := value];
      keys := keys + 1;
      if |table[n]| == 1 { fill := fill + 1; }
    }

    /** Doubles the table and moves the entries that belong elsewhere then. */
    method Expand()
      requires Valid()
      modifies this
      ensures Valid() && contents == old(contents) && buckets == 2 * old(buckets)
    {
      hide Stores, Filled;
      ghost var b := buckets;
      var more: seq<seq<Entry<V>>> := seq(buckets, i => []);
      SplitStart(code, contents, b, table, more);
      FilledGrown(table, more);
      buckets := buckets * 2;
      table := table + more;
      for n := 0 to buckets / 2
        invariant buckets == 2 * b && |table| == buckets && contents == old(contents) && keys == old(keys)
        invariant Stores(code, contents, Splitting(b, n), table) && fill == Filled(table)
      {
        SplitOne(b, n);
      }
      SplitEnd(code, contents, b, table);
    }

    /** Splits bucket n and keeps count of the buckets in use. */
    method SplitOne(ghost b: nat, n: nat)
      requires n < b && buckets == 2 * b && |table| == buckets
      requires Stores(code, contents, Splitting(b, n), table) && fill == Filled(table)
      modifies this
      ensures buckets == old(buckets) && |table| == buckets && contents == old(contents) && keys == old(keys)
      ensures Stores(code, contents, Splitting(b, n + 1), table) && fill == Filled(table)
    {
      assert BucketSound(code, contents, Splitting(b, n), table[n], n) && DistinctKeys(table[n]);
      hide Stores, Filled, BucketSound, SplitInto, DistinctKeys, Splitting;
      var near, far := SplitBucket(table[n], n, buckets);
      BucketSplit(code, contents, b, buckets, n, table, near, far);
      StoreSplit(n, n + buckets / 2, near, far);
    }

    method StoreSplit(n: nat, k: nat, near: seq<Entry<V>>, far: seq<Entry<V>>)
      requires n < k < |table| && table[k] == [] && |table| == buckets && SplitInto(table[n], n, buckets, near, far)
      requires fill == Filled(table)
      modifies this
      ensures table == old(table)[n := near][k := far] && fill == Filled(table)
      ensures buckets == old(buckets) && contents == old(contents) && keys == old(keys)
    {
      FilledSplit(table, n, k, buckets, near, far);
      if far != [] { fill := fill + 1; }
      if table[n] != [] && near == [] { fill := fill - 1; }
      table := table[n := near][k := far];
    }
  }
}
