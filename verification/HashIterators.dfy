/** Going through the entries of a hash table. */
module HashIterators {
  import opened HashTables
  import opened Options

  /** The entries in the order of their buckets. */
  function Flatten<V>(table: seq<seq<Entry<V>>>): seq<Entry<V>> {
    if table == [] then [] else Flatten(table[..|table| - 1]) + table[|table| - 1]
  }

  /** How many entries come before the given place. */
  ghost function Position<V>(table: seq<seq<Entry<V>>>, n: nat, e: nat): nat
    requires n <= |table|
  {
    |Flatten(table[..n])| + e
  }

  lemma {:induction false} FlattenPrefix<V>(table: seq<seq<Entry<V>>>, n: nat)
    requires n <= |table|
    ensures Flatten(table[..n]) <= Flatten(table)
  {
    if n == |table| {
      assert table[..n] == table;
    } else {
      var last := |table| - 1;
      FlattenPrefix(table[..last], n);
      assert table[..last][..n] == table[..n];
    }
  }

  lemma FlattenNext<V>(table: seq<seq<Entry<V>>>, n: nat)
    requires n < |table|
    ensures Flatten(table[..n + 1]) == Flatten(table[..n]) + table[n]
  {
    assert table[..n + 1][..n] == table[..n];
  }

  lemma FlattenAt<V>(table: seq<seq<Entry<V>>>, n: nat, e: nat)
    requires n < |table| && e < |table[n]|
    ensures Position(table, n, e) < |Flatten(table)| && Flatten(table)[Position(table, n, e)] == table[n][e]
  {
    FlattenPrefix(table, n + 1);
    FlattenNext(table, n);
    var s, t := Flatten(table[..n + 1]), Flatten(table);
    assert s[Position(table, n, e)] == table[n][e] && t[..|s|] == s;
  }

  lemma {:induction false} FlattenMember<V>(table: seq<seq<Entry<V>>>, p: nat) returns (n: nat, e: nat)
    requires p < |Flatten(table)|
    ensures n < |table| && e < |table[n]| && Position(table, n, e) == p && table[n][e] == Flatten(table)[p]
  {
    var last := |table| - 1;
    var front := Flatten(table[..last]);
    if p < |front| {
      n, e := FlattenMember(table[..last], p);
      assert table[..last][..n] == table[..n];
    } else {
      n, e := last, p - |front|;
    }
  }

  /** Going through the table meets every key exactly once, with its value. */
  lemma EachKeyOnce<V>(code: Coding, m: map<string, V>, buckets: nat, table: seq<seq<Entry<V>>>)
    requires buckets > 0 && |table| == buckets && Stores(code, m, AtHome(buckets), table)
    ensures var s := Flatten(table);
            && (forall i, j | 0 <= i < j < |s| :: s[i].key != s[j].key)
            && (forall x | x in s :: x.key in m && m[x.key] == x.value)
            && (forall k | k in m :: Entry(code(k), k, m[k]) in s)
  {
    var s := Flatten(table);
    forall i, j | 0 <= i < j < |s|
      ensures s[i].key != s[j].key
    {
      var n, e := FlattenMember(table, i);
      var k, d := FlattenMember(table, j);
      assert BucketSound(code, m, AtHome(buckets), table[n], n) && BucketSound(code, m, AtHome(buckets), table[k], k);
      assert table[n][e] in table[n] && table[k][d] in table[k];
    }
    forall x | x in s
      ensures x.key in m && m[x.key] == x.value
    {
      var p :| 0 <= p < |s| && s[p] == x;
      var n, e := FlattenMember(table, p);
      assert BucketSound(code, m, AtHome(buckets), table[n], n) && table[n][e] in table[n];
    }
    forall k | k in m
      ensures Entry(code(k), k, m[k]) in s
    {
      assert KeyStored(code, m, AtHome(buckets), table, k);
      var n := Location(code(k), buckets);
      var e :| 0 <= e < |table[n]| && table[n][e] == Entry(code(k), k, m[k]);
      FlattenAt(table, n, e);
    }
  }

  class HashIterator<V> {
    const hash: HashTable<V>
    var bucket: nat
    var entry: nat
    var current: Option<Entry<V>>

    /** The current item is number p. */
    ghost predicate At(p: nat)
      reads this, hash
    {
      && bucket < |hash.table| && entry < |hash.table[bucket]|
      && Position(hash.table, bucket, entry) == p && current == Some(hash.table[bucket][entry])
    }

    constructor (hash: HashTable<V>)
      ensures this.hash == hash
      ensures var s := Flatten(hash.table); if s == [] then current == None else At(0) && current == Some(s[0])
    {
      this.hash := hash;
      bucket, entry, current := 0, 0, None;
      new;
      ToFirst();
    }

    /** Goes to the first entry from bucket n on. */
    method FindFrom(n: nat)
      requires n <= |hash.table|
      modifies this
      ensures var s, p := Flatten(hash.table), Position(hash.table, n, 0);
              if p < |s| then At(p) && current == Some(s[p]) else current == None
    {
      var k := n;
      while k < |hash.table|
        invariant n <= k <= |hash.table| && Position(hash.table, k, 0) == Position(hash.table, n, 0)
      {
        FlattenNext(hash.table, k);
        if |hash.table[k]| > 0 {
          bucket, entry, current := k, 0, Some(hash.table[k][0]);
          FlattenAt(hash.table, k, 0);
          return;
        }
        k := k + 1;
      }
      assert hash.table[..k] == hash.table;
      current := None;
    }

    method ToFirst()
      modifies this
      ensures var s := Flatten(hash.table); if s == [] then current == None else At(0) && current == Some(s[0])
    {
      assert hash.table[..0] == [];
      FindFrom(0);
    }

    /** Goes from item p to item p + 1. */
    method Next(ghost p: nat)
      requires At(p)
      modifies this
      ensures var s, q := Flatten(hash.table), p + 1;
              if q < |s| then At(q) && current == Some(s[q]) else current == None
    {
      if entry < |hash.table[bucket]| - 1 {
        entry := entry + 1;
        current := Some(hash.table[bucket][entry]);
        FlattenAt(hash.table, bucket, entry);
      } else {
        FlattenNext(hash.table, bucket);
        FindFrom(bucket + 1);
      }
    }
  }
}
