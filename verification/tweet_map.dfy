/**
 * The tweet index: a JavaScript `Map` from id to record. A `Map` iterates in
 * insertion order, and `set` on a key already present overwrites its value in
 * place without moving it; the model keeps the keys in that order beside the
 * lookup table.
 */
module TweetMap {
  import opened Wrappers
  import opened Seqs

  datatype OrderedMap<V> = OrderedMap(keys: seq<string>, entries: map<string, V>)

  /** Each key occurs once in the order, and the order lists exactly the keys of the table. */
  predicate Valid<V>(m: OrderedMap<V>)
  {
    Distinct(m.keys) && (forall k :: k in m.entries ==> k in m.keys) && (forall k :: k in m.keys ==> k in m.entries)
  }

  /** `new Map()` */
  function Empty<V>(): (m: OrderedMap<V>)
    ensures Valid(m) && Size(m) == 0
    ensures forall k :: Get(m, k).None?
  {
    OrderedMap([], map[])
  }

  /** `map.get(k)`, with None for `undefined`. */
  function Get<V>(m: OrderedMap<V>, k: string): (r: Option<V>)
    ensures r.Some? <==> k in m.entries
    ensures Valid(m) ==> (r.Some? <==> k in m.keys)
  {
    if k in m.entries then Some(m.entries[k]) else None
  }

  /** `map.size` */
  function Size<V>(m: OrderedMap<V>): nat
  {
    |m.keys|
  }

  /** `map.set(k, v)`: afterwards `k` maps to `v`, every other key keeps its value, and `k` joins
      the end of the order only when it was absent. */
  function Set<V>(m: OrderedMap<V>, k: string, v: V): (r: OrderedMap<V>)
    requires Valid(m)
    ensures Valid(r)
    ensures Get(r, k) == Some(v)
    ensures forall k' :: k' != k ==> Get(r, k') == Get(m, k')
    ensures Get(m, k).Some? ==> r.keys == m.keys
    ensures Get(m, k).None? ==> r.keys == m.keys + [k]
  {
    var keys := if k in m.entries then m.keys else m.keys + [k];
    OrderedMap(keys, m.entries[k := v])
  }

  /** A second `set` of the same key wins, and the size grows by one only for a new key. */
  lemma SetTwice<V>(m: OrderedMap<V>, k: string, v1: V, v2: V)
    requires Valid(m)
    ensures Set(Set(m, k, v1), k, v2) == Set(m, k, v2)
    ensures Size(Set(m, k, v1)) == if Get(m, k).Some? then Size(m) else Size(m) + 1
  {
  }

  /** The size counts the keys of the table: there are no duplicate keys. */
  lemma {:induction false} SizeIsKeyCount<V>(m: OrderedMap<V>)
    requires Valid(m)
    ensures Size(m) == |m.entries.Keys|
  {
    DistinctCard(m.keys);
    assert m.entries.Keys == set k | k in m.keys;
  }

  lemma {:induction false} DistinctCard(s: seq<string>)
    requires Distinct(s)
    ensures |set k | k in s| == |s|
  {
    if s != [] {
      var p := s[..|s| - 1];
      var x := s[|s| - 1];
      assert s == p + [x];
      assert Distinct(p);
      DistinctCard(p);
      assert x !in p;
      assert (set k | k in s) == (set k | k in p) + {x};
    }
  }

  /** `Array.from(map.values())`: the values in key order. */
  function ValuesOf<V>(keys: seq<string>, entries: map<string, V>): (r: seq<V>)
    requires forall k :: k in keys ==> k in entries
    ensures |r| == |keys|
    ensures forall i :: 0 <= i < |keys| ==> r[i] == entries[keys[i]]
  {
    if keys == [] then []
    else
      var n := |keys| - 1;
      ValuesOf(keys[..n], entries) + [entries[keys[n]]]
  }

  function Values<V>(m: OrderedMap<V>): (r: seq<V>)
    requires Valid(m)
    ensures |r| == Size(m)
  {
    ValuesOf(m.keys, m.entries)
  }

  /** Setting a new key appends its value to the iteration. */
  lemma ValuesAfterSetNew<V>(m: OrderedMap<V>, k: string, v: V)
    requires Valid(m) && Get(m, k).None?
    ensures Values(Set(m, k, v)) == Values(m) + [v]
  {
    var r := Set(m, k, v);
    var a, b := Values(r), Values(m) + [v];
    assert |a| == |b|;
    forall i | 0 <= i < |a|
      ensures a[i] == b[i]
    {
      if i < |m.keys| {
        assert r.keys[i] == m.keys[i] && m.keys[i] in m.entries;
      }
    }
  }

  /** Overwriting a key replaces its value at the position the key already had. */
  lemma ValuesAfterSetExisting<V>(m: OrderedMap<V>, k: string, v: V, j: nat)
    requires Valid(m) && j < |m.keys| && m.keys[j] == k
    ensures Values(Set(m, k, v)) == Values(m)[j := v]
  {
    var r := Set(m, k, v);
    assert r.keys == m.keys;
    var a, b := Values(r), Values(m)[j := v];
    assert |a| == |b|;
    forall i | 0 <= i < |a|
      ensures a[i] == b[i]
    {
      if i != j {
        assert m.keys[i] != k;
      }
    }
  }
}
