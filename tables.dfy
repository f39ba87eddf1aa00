/** A store's full scan (`Streams.stream(iterator()).map(Entry::getValue)`): the
    values of a finite map, listed in the order the store's iterator visits the keys.
    That order belongs to the storage backend, so it is a parameter here. */
module Tables {

  /** `order` visits every key of `store` exactly once. */
  ghost predicate IterationOrder<K(!new), V>(store: map<K, V>, order: seq<K>) {
    && (forall i, j :: 0 <= i < j < |order| ==> order[i] != order[j])
    && (forall k :: k in store <==> k in order)
  }

  lemma {:induction false} DistinctCardinality<K>(order: seq<K>)
    requires forall i, j :: 0 <= i < j < |order| ==> order[i] != order[j]
    ensures |set k | k in order| == |order|
  {
    if order != [] {
      var rest := order[1..];
      DistinctCardinality(rest);
      assert (set k | k in order) == {order[0]} + (set k | k in rest);
    }
  }

  /** The values of `store` in iteration order: one entry per key, nothing else. */
  function AllValues<K(!new), V>(store: map<K, V>, order: seq<K>): (r: seq<V>)
    requires IterationOrder(store, order)
    ensures |r| == |order| == |store|
    ensures forall i :: 0 <= i < |r| ==> r[i] == store[order[i]]
    ensures forall k :: k in store ==> store[k] in r
  {
    DistinctCardinality(order);
    assert (set k | k in order) == store.Keys;
    var r := seq(|order|, i requires 0 <= i < |order| => store[order[i]]);
    assert forall k :: k in store ==> exists i :: 0 <= i < |order| && order[i] == k && r[i] == store[k];
    r
  }
}
