/** Insertion-ordered maps as lists of entries: the model of a JavaScript
    `Map`, and of a plain object's string-keyed properties. Setting a key
    that is present replaces its value where it stands; a new key goes to
    the end. */
module OrderedMaps {
  import opened Wrappers

  function Keys<K, V>(m: seq<(K, V)>): (ks: seq<K>)
    ensures |ks| == |m|
    ensures forall i :: 0 <= i < |m| ==> ks[i] == m[i].0
  {
    seq(|m|, i requires 0 <= i < |m| => m[i].0)
  }

  predicate DistinctKeys<K(==), V>(m: seq<(K, V)>)
  {
    forall i, j :: 0 <= i < j < |m| ==> m[i].0 != m[j].0
  }

  /** The position of the entry for `k`, or -1. */
  function IndexOfKey<K(==), V>(m: seq<(K, V)>, k: K): (r: int)
    ensures -1 <= r < |m|
    ensures r >= 0 ==> m[r].0 == k
    ensures forall j :: 0 <= j < |m| && (r == -1 || j < r) ==> m[j].0 != k
  {
    if |m| == 0 then -1
    else if m[0].0 == k then 0
    else
      var r := IndexOfKey(m[1..], k);
      if r == -1 then -1 else r + 1
  }

  /** The first entry with key `k` is at `i`. */
  lemma {:induction false} IndexOfKeyIs<K, V>(m: seq<(K, V)>, k: K, i: int)
    requires 0 <= i < |m| && m[i].0 == k
    requires forall j :: 0 <= j < i ==> m[j].0 != k
    ensures IndexOfKey(m, k) == i
  {
  }

  /** `map.get(k)`. */
  function Lookup<K(==), V>(m: seq<(K, V)>, k: K): Option<V>
  {
    var i := IndexOfKey(m, k);
    if i == -1 then None else Some(m[i].1)
  }

  /** `map.set(k, v)`. */
  function Put<K(==), V>(m: seq<(K, V)>, k: K, v: V): (r: seq<(K, V)>)
    ensures DistinctKeys(m) ==> DistinctKeys(r)
    ensures IndexOfKey(m, k) == -1 ==> Keys(r) == Keys(m) + [k]
    ensures IndexOfKey(m, k) != -1 ==> Keys(r) == Keys(m)
  {
    var i := IndexOfKey(m, k);
    if i == -1 then m + [(k, v)] else m[i := (k, v)]
  }

  /** The map laws of `set` and `get`: the key set holds the new value, every
      other key keeps its old one. */
  lemma {:induction false} PutLookup<K, V>(m: seq<(K, V)>, k: K, v: V, k': K)
    ensures Lookup(Put(m, k, v), k) == Some(v)
    ensures k' != k ==> Lookup(Put(m, k, v), k') == Lookup(m, k')
  {
    var r := Put(m, k, v);
    var i := IndexOfKey(m, k);
    if i == -1 {
      IndexOfKeyIs(r, k, |m|);
    } else {
      IndexOfKeyIs(r, k, i);
    }
    if k' != k {
      var j := IndexOfKey(m, k');
      if j != -1 {
        IndexOfKeyIs(r, k', j);
      }
    }
  }

  /** Setting every entry of `es` in turn, as `new Map(es)` does from an
      empty map and an object spread does onto the object built so far. */
  function PutAll<K(==), V>(m: seq<(K, V)>, es: seq<(K, V)>): (r: seq<(K, V)>)
    ensures DistinctKeys(m) ==> DistinctKeys(r)
    ensures |m| <= |r| <= |m| + |es| && Keys(r)[..|m|] == Keys(m)
  {
    if |es| == 0 then m
    else
      var last := es[|es| - 1];
      var prev := PutAll(m, es[..|es| - 1]);
      assert Keys(prev)[..|m|] == Keys(m);
      Put(prev, last.0, last.1)
  }

  /** The value the last entry for `k` in `es` carries, if any. */
  function LastValue<K(==), V>(es: seq<(K, V)>, k: K): Option<V>
  {
    if |es| == 0 then None
    else if es[|es| - 1].0 == k then Some(es[|es| - 1].1)
    else LastValue(es[..|es| - 1], k)
  }

  /** After setting the entries `es`, a key they mention maps to the last
      value they give it, and every other key keeps its old value. */
  lemma {:induction false} PutAllLookup<K, V>(m: seq<(K, V)>, es: seq<(K, V)>, k: K)
    ensures LastValue(es, k).Some? ==> Lookup(PutAll(m, es), k) == LastValue(es, k)
    ensures LastValue(es, k).None? ==> Lookup(PutAll(m, es), k) == Lookup(m, k)
  {
    if |es| > 0 {
      var last := es[|es| - 1];
      PutAllLookup(m, es[..|es| - 1], k);
      PutLookup(PutAll(m, es[..|es| - 1]), last.0, last.1, k);
    }
  }
}
