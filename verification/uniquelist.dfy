/** `getUniqueListBy`: the values of a `Map` built from one `[key, item]`
    pair per item, spread into an array. */
module UniqueList {
  import opened Wrappers
  import opened JsStrings
  import opened OrderedMaps

  /** The key of every item, in order; `keyOf` stands for `item => item[key]`. */
  function KeysOf<K, V>(arr: seq<V>, keyOf: V -> K): (ks: seq<K>)
    ensures |ks| == |arr|
    ensures forall i :: 0 <= i < |arr| ==> ks[i] == keyOf(arr[i])
  {
    seq(|arr|, i requires 0 <= i < |arr| => keyOf(arr[i]))
  }

  /** The `[item[key], item]` pairs the `Map` is built from. */
  function Pairs<K, V>(arr: seq<V>, keyOf: V -> K): (es: seq<(K, V)>)
    ensures |es| == |arr|
    ensures forall i :: 0 <= i < |arr| ==> es[i] == (keyOf(arr[i]), arr[i])
  {
    seq(|arr|, i requires 0 <= i < |arr| => (keyOf(arr[i]), arr[i]))
  }

  /** The position of the first `k` in `ks`. */
  function FirstIndex<K(==)>(ks: seq<K>, k: K): (r: nat)
    requires k in ks
    ensures r < |ks| && ks[r] == k
    ensures forall j :: 0 <= j < r ==> ks[j] != k
  {
    if ks[0] == k then 0 else 1 + FirstIndex(ks[1..], k)
  }

  /** The position of the last `k` in `ks`. */
  function LastIndex<K(==)>(ks: seq<K>, k: K): (r: nat)
    requires k in ks
    ensures r < |ks| && ks[r] == k
    ensures forall j :: r < j < |ks| ==> ks[j] != k
  {
    if ks[|ks| - 1] == k then |ks| - 1 else LastIndex(ks[..|ks| - 1], k)
  }

  lemma {:induction false} FirstIndexIs<K>(ks: seq<K>, k: K, i: nat)
    requires i < |ks| && ks[i] == k && forall j :: 0 <= j < i ==> ks[j] != k
    ensures FirstIndex(ks, k) == i
  {
  }

  lemma {:induction false} LastIndexIs<K>(ks: seq<K>, k: K, i: nat)
    requires i < |ks| && ks[i] == k && forall j :: i < j < |ks| ==> ks[j] != k
    ensures LastIndex(ks, k) == i
  {
  }

  /** Each entry pairs an item's key with the item, and the key occurs in
      `ks`. */
  ghost predicate EntriesKeyed<K, V>(ks: seq<K>, keyOf: V -> K, m: seq<(K, V)>)
  {
    forall i :: 0 <= i < |m| ==> m[i].0 == keyOf(m[i].1) && m[i].0 in ks
  }

  /** Every key of `ks` has an entry. */
  ghost predicate CoversKeys<K, V>(ks: seq<K>, m: seq<(K, V)>)
  {
    forall j :: 0 <= j < |ks| ==> IndexOfKey(m, ks[j]) != -1
  }

  /** Each entry holds the last item with its key. */
  ghost predicate HoldsLast<K, V>(arr: seq<V>, ks: seq<K>, m: seq<(K, V)>)
    requires |ks| == |arr|
    requires forall i :: 0 <= i < |m| ==> m[i].0 in ks
  {
    forall i :: 0 <= i < |m| ==> m[i].1 == arr[LastIndex(ks, m[i].0)]
  }

  /** The entries follow the first occurrences of their keys in `ks`, which
      also means that no key has two entries. */
  ghost predicate FirstOrder<K, V>(ks: seq<K>, m: seq<(K, V)>)
    requires forall i :: 0 <= i < |m| ==> m[i].0 in ks
  {
    forall i, j :: 0 <= i < j < |m| ==> FirstIndex(ks, m[i].0) < FirstIndex(ks, m[j].0)
  }

  /** `m` is the `Map` built from the items `arr`. */
  ghost predicate Summarizes<K, V>(arr: seq<V>, keyOf: V -> K, m: seq<(K, V)>)
  {
    var ks := KeysOf(arr, keyOf);
    && EntriesKeyed(ks, keyOf, m)
    && CoversKeys(ks, m)
    && HoldsLast(arr, ks, m)
    && FirstOrder(ks, m)
  }

  /** Appending a key leaves the first occurrence of every earlier key in
      place, and the last occurrence of every other key. */
  lemma {:induction false} AppendIndices<K>(ks: seq<K>, kx: K)
    ensures forall k :: k in ks ==> FirstIndex(ks + [kx], k) == FirstIndex(ks, k)
    ensures forall k :: k in ks && k != kx ==> LastIndex(ks + [kx], k) == LastIndex(ks, k)
    ensures LastIndex(ks + [kx], kx) == |ks|
    ensures kx !in ks ==> FirstIndex(ks + [kx], kx) == |ks|
  {
    var ks' := ks + [kx];
    forall k | k in ks
      ensures FirstIndex(ks', k) == FirstIndex(ks, k)
    {
      FirstIndexIs(ks', k, FirstIndex(ks, k));
    }
    forall k | k in ks && k != kx
      ensures LastIndex(ks', k) == LastIndex(ks, k)
    {
      LastIndexIs(ks', k, LastIndex(ks, k));
    }
    LastIndexIs(ks', kx, |ks|);
    if kx !in ks {
      FirstIndexIs(ks', kx, |ks|);
    }
  }

  /** An item whose key has no entry yet has a key new to the input. */
  lemma {:induction false} NewKeyIsNew<K, V>(ks: seq<K>, m: seq<(K, V)>, kx: K)
    requires CoversKeys(ks, m)
    requires IndexOfKey(m, kx) == -1
    ensures kx !in ks
  {
    if kx in ks {
      var j := FirstIndex(ks, kx);
    }
  }

  lemma {:induction false} CoversKeysStep<K, V>(ks: seq<K>, m: seq<(K, V)>, kx: K, x: V)
    requires CoversKeys(ks, m)
    ensures CoversKeys(ks + [kx], Put(m, kx, x))
  {
    var ks' := ks + [kx];
    var m' := Put(m, kx, x);
    forall j | 0 <= j < |ks'|
      ensures IndexOfKey(m', ks'[j]) != -1
    {
      PutLookup(m, kx, x, ks'[j]);
      if j < |ks| {
        assert ks'[j] == ks[j];
        assert Lookup(m, ks'[j]).Some?;
      }
    }
  }

  lemma {:induction false} EntriesKeyedStep<K, V>(ks: seq<K>, keyOf: V -> K, m: seq<(K, V)>, x: V)
    requires EntriesKeyed(ks, keyOf, m)
    ensures EntriesKeyed(ks + [keyOf(x)], keyOf, Put(m, keyOf(x), x))
  {
    var p := IndexOfKey(m, keyOf(x));
    var m' := Put(m, keyOf(x), x);
    forall i | 0 <= i < |m'|
      ensures m'[i].0 == keyOf(m'[i].1) && m'[i].0 in ks + [keyOf(x)]
    {
      if i < |m| && i != p {
        assert m'[i] == m[i];
      }
    }
  }

  /** Ordered first occurrences are distinct, so no key has two entries. */
  lemma {:induction false} FirstOrderDistinct<K, V>(ks: seq<K>, m: seq<(K, V)>)
    requires forall i :: 0 <= i < |m| ==> m[i].0 in ks
    requires FirstOrder(ks, m)
    ensures DistinctKeys(m)
  {
  }

  lemma {:induction false} HoldsLastStep<K, V>(arr: seq<V>, ks: seq<K>, m: seq<(K, V)>, kx: K, x: V)
    requires |ks| == |arr|
    requires forall i :: 0 <= i < |m| ==> m[i].0 in ks
    requires kx in ks ==> IndexOfKey(m, kx) != -1
    requires DistinctKeys(m)
    requires HoldsLast(arr, ks, m)
    ensures forall i :: 0 <= i < |Put(m, kx, x)| ==> Put(m, kx, x)[i].0 in ks + [kx]
    ensures HoldsLast(arr + [x], ks + [kx], Put(m, kx, x))
  {
    AppendIndices(ks, kx);
    var ks' := ks + [kx];
    var arr' := arr + [x];
    var p := IndexOfKey(m, kx);
    var m' := Put(m, kx, x);
    assert p == -1 ==> m' == m + [(kx, x)];
    assert p != -1 ==> m' == m[p := (kx, x)];
    forall i | 0 <= i < |m'|
      ensures m'[i].0 in ks'
    {
      if i < |m| && i != p {
        assert m'[i] == m[i];
      }
    }
    forall i | 0 <= i < |m'|
      ensures m'[i].1 == arr'[LastIndex(ks', m'[i].0)]
    {
      if i < |m| && i != p {
        var k := m[i].0;
        assert m'[i] == m[i];
        assert k != kx;
        assert LastIndex(ks', k) == LastIndex(ks, k);
        assert arr'[LastIndex(ks, k)] == arr[LastIndex(ks, k)];
      } else {
        assert m'[i] == (kx, x);
      }
    }
  }

  lemma {:induction false} FirstOrderStep<K, V>(ks: seq<K>, keyOf: V -> K, m: seq<(K, V)>, x: V)
    requires EntriesKeyed(ks, keyOf, m) && CoversKeys(ks, m) && FirstOrder(ks, m)
    ensures EntriesKeyed(ks + [keyOf(x)], keyOf, Put(m, keyOf(x), x))
    ensures FirstOrder(ks + [keyOf(x)], Put(m, keyOf(x), x))
  {
    var kx := keyOf(x);
    EntriesKeyedStep(ks, keyOf, m, x);
    AppendIndices(ks, kx);
    var p := IndexOfKey(m, kx);
    var m' := Put(m, kx, x);
    if p == -1 {
      NewKeyIsNew(ks, m, kx);
      assert m' == m + [(kx, x)];
    } else {
      assert m' == m[p := (kx, x)];
    }
  }

  /** Adding one item to the end of the input keeps the summary. */
  lemma {:induction false} SummarizesStep<K, V>(arr: seq<V>, keyOf: V -> K, m: seq<(K, V)>, x: V)
    requires Summarizes(arr, keyOf, m)
    ensures Summarizes(arr + [x], keyOf, Put(m, keyOf(x), x))
  {
    var ks := KeysOf(arr, keyOf);
    var kx := keyOf(x);
    var ks' := KeysOf(arr + [x], keyOf);
    var m' := Put(m, kx, x);
    assert ks' == ks + [kx];
    CoversKeysStep(ks, m, kx, x);
    FirstOrderDistinct(ks, m);
    if kx in ks {
      var j := FirstIndex(ks, kx);
      assert IndexOfKey(m, ks[j]) != -1;
    }
    HoldsLastStep(arr, ks, m, kx, x);
    FirstOrderStep(ks, keyOf, m, x);
    assert EntriesKeyed(ks', keyOf, m');
    assert CoversKeys(ks', m');
    assert HoldsLast(arr + [x], ks', m');
    assert FirstOrder(ks', m');
  }

  /** The `Map` built from `arr` summarizes `arr`. */
  lemma {:induction false} PutAllSummarizes<K, V>(arr: seq<V>, keyOf: V -> K)
    ensures Summarizes(arr, keyOf, PutAll([], Pairs(arr, keyOf)))
  {
    if |arr| > 0 {
      var front := arr[..|arr| - 1];
      var x := arr[|arr| - 1];
      var m := PutAll([], Pairs(front, keyOf));
      assert PutAll([], Pairs(arr, keyOf)) == Put(m, keyOf(x), x) by {
        assert Pairs(arr, keyOf)[..|arr| - 1] == Pairs(front, keyOf);
      }
      assert front + [x] == arr;
      PutAllSummarizes(front, keyOf);
      SummarizesStep(front, keyOf, m, x);
    }
  }

  function Values<K, V>(m: seq<(K, V)>): (vs: seq<V>)
    ensures |vs| == |m|
    ensures forall i :: 0 <= i < |m| ==> vs[i] == m[i].1
  {
    seq(|m|, i requires 0 <= i < |m| => m[i].1)
  }

  /** The values of a summary are the unique list. */
  lemma {:induction false} SummaryValues<K, V>(arr: seq<V>, keyOf: V -> K, m: seq<(K, V)>)
    requires Summarizes(arr, keyOf, m)
    ensures forall i :: 0 <= i < |m| ==> keyOf(Values(m)[i]) in KeysOf(arr, keyOf)
    ensures forall j :: 0 <= j < |arr| ==> exists i :: 0 <= i < |m| && keyOf(Values(m)[i]) == keyOf(arr[j])
    ensures forall i :: 0 <= i < |m| ==> Values(m)[i] == arr[LastIndex(KeysOf(arr, keyOf), keyOf(Values(m)[i]))]
    ensures forall i, j :: 0 <= i < j < |m| ==>
      FirstIndex(KeysOf(arr, keyOf), keyOf(Values(m)[i])) < FirstIndex(KeysOf(arr, keyOf), keyOf(Values(m)[j]))
  {
    var r := Values(m);
    var ks := KeysOf(arr, keyOf);
    assert forall i :: 0 <= i < |m| ==> keyOf(r[i]) == m[i].0;
    forall j | 0 <= j < |arr|
      ensures exists i :: 0 <= i < |m| && keyOf(r[i]) == keyOf(arr[j])
    {
      assert IndexOfKey(m, ks[j]) != -1;
      var i := IndexOfKey(m, ks[j]);
      assert keyOf(r[i]) == m[i].0 == ks[j] == keyOf(arr[j]);
    }
  }

  /** `getUniqueListBy(arr, key)`: one item per distinct key, ordered by each
      key's first occurrence in `arr`, each the last item in `arr` with that
      key. */
  function GetUniqueListBy<K(==), V>(arr: seq<V>, keyOf: V -> K): (r: seq<V>)
    ensures |r| <= |arr|
    ensures forall i :: 0 <= i < |r| ==> keyOf(r[i]) in KeysOf(arr, keyOf)
    ensures forall j :: 0 <= j < |arr| ==> exists i :: 0 <= i < |r| && keyOf(r[i]) == keyOf(arr[j])
    ensures forall i :: 0 <= i < |r| ==> r[i] == arr[LastIndex(KeysOf(arr, keyOf), keyOf(r[i]))]
    ensures forall i, j :: 0 <= i < j < |r| ==>
      FirstIndex(KeysOf(arr, keyOf), keyOf(r[i])) < FirstIndex(KeysOf(arr, keyOf), keyOf(r[j]))
  {
    var m := PutAll([], Pairs(arr, keyOf));
    PutAllSummarizes(arr, keyOf);
    SummaryValues(arr, keyOf, m);
    Values(m)
  }

  /** `getUniqueListBy` on an array that may hold `null` or `undefined`
      items (each `None` here). Reading `item[key]` on such an item throws a
      TypeError inside `map`, before the `Map` is built; an array without
      them gives the unique list of its items. */
  function GetUniqueListByOrThrow<K(==), V>(arr: seq<Option<V>>, keyOf: V -> K): (r: Result<seq<V>, JsError>)
    ensures r.Err? <==> exists i :: 0 <= i < |arr| && arr[i].None?
    ensures r.Err? ==> r.error == TypeError
    ensures r.Ok? ==> r.value == GetUniqueListBy(Present(arr), keyOf)
  {
    if exists i :: 0 <= i < |arr| && arr[i].None? then Err(TypeError)
    else Ok(GetUniqueListBy(Present(arr), keyOf))
  }

  /** The items of an array holding no `null` or `undefined`. */
  function Present<V>(arr: seq<Option<V>>): (items: seq<V>)
    requires forall i :: 0 <= i < |arr| ==> arr[i].Some?
    ensures |items| == |arr|
    ensures forall i :: 0 <= i < |arr| ==> arr[i] == Some(items[i])
  {
    seq(|arr|, i requires 0 <= i < |arr| => arr[i].value)
  }
}
