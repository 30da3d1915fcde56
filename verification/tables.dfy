/** Lookup tables the scripts build with dict comprehensions over the
    translation library's `(code, name)` pairs. */
module Tables {
  import opened Wrappers

  /** Python's `d.get(k)`. */
  function Get<K, V>(m: map<K, V>, k: K): (r: Option<V>)
    ensures r.Some? <==> k in m
    ensures r.Some? ==> r.value == m[k]
  {
    if k in m then Some(m[k]) else None
  }

  /** No later item has the same key as item `i`. */
  ghost predicate LastWithKey<T, K>(items: seq<T>, key: T -> K, i: int) {
    0 <= i < |items| && forall j :: i < j < |items| ==> key(items[j]) != key(items[i])
  }

  /** `{key(x): val(x) for x in items}`: the comprehension assigns in order,
      so on a repeated key the last item wins (see TabulateHasKeys, TabulateOnlyKeys and TabulateLastWins). */
  function Tabulate<T, K, V>(items: seq<T>, key: T -> K, val: T -> V): map<K, V>
    decreases |items|
  {
    if items == [] then map[]
    else
      var last := items[|items| - 1];
      Tabulate(items[..|items| - 1], key, val)[key(last) := val(last)]
  }

  /** Every item's key is in the table. */
  lemma {:induction false} TabulateHasKeys<T, K, V>(items: seq<T>, key: T -> K, val: T -> V)
    ensures forall i :: 0 <= i < |items| ==> key(items[i]) in Tabulate(items, key, val)
    decreases |items|
  {
    if items != [] {
      var init := items[..|items| - 1];
      TabulateHasKeys(init, key, val);
      forall i | 0 <= i < |init| ensures key(items[i]) in Tabulate(items, key, val) {
        assert items[i] == init[i];
      }
    }
  }

  /** Every key in the table comes from an item. */
  lemma {:induction false} TabulateOnlyKeys<T, K, V>(items: seq<T>, key: T -> K, val: T -> V)
    ensures forall k :: k in Tabulate(items, key, val) ==> exists i :: 0 <= i < |items| && key(items[i]) == k
    decreases |items|
  {
    if items != [] {
      var init := items[..|items| - 1];
      var last := items[|items| - 1];
      TabulateOnlyKeys(init, key, val);
      assert Tabulate(items, key, val) == Tabulate(init, key, val)[key(last) := val(last)];
      forall k | k in Tabulate(items, key, val)
        ensures exists i :: 0 <= i < |items| && key(items[i]) == k
      {
        if k != key(last) {
          var i :| 0 <= i < |init| && key(init[i]) == k;
          assert items[i] == init[i];
        }
      }
    }
  }

  /** A key maps to the value of the last item carrying it. */
  lemma {:induction false} TabulateLastWins<T, K, V>(items: seq<T>, key: T -> K, val: T -> V)
    ensures forall i :: LastWithKey(items, key, i) ==>
      key(items[i]) in Tabulate(items, key, val) && Tabulate(items, key, val)[key(items[i])] == val(items[i])
    decreases |items|
  {
    if items != [] {
      var init := items[..|items| - 1];
      var last := items[|items| - 1];
      TabulateLastWins(init, key, val);
      forall i | LastWithKey(items, key, i)
        ensures key(items[i]) in Tabulate(items, key, val) && Tabulate(items, key, val)[key(items[i])] == val(items[i])
      {
        if i < |init| {
          assert items[i] == init[i];
          assert key(last) != key(items[i]);
          assert LastWithKey(init, key, i);
        }
      }
    }
  }
}
