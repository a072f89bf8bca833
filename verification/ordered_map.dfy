/** A model of the JavaScript `Map<string, V>` that backs the activity
    registry: a finite map from keys to values that also remembers the order
    in which keys were first inserted, because `Map.prototype.values()`
    enumerates entries in that order. Overwriting a key keeps its position;
    deleting a key removes it from the order. */
module OrderedMap {
  import opened Wrappers
  import opened Seqs

  datatype Registry<V> = Registry(order: seq<string>, entries: map<string, V>)

  /** The order lists every key exactly once and nothing else. */
  ghost predicate Valid<V>(r: Registry<V>) {
    && NoDuplicates(r.order)
    && (forall k :: k in r.order <==> k in r.entries)
  }

  /** `new Map()` */
  function Empty<V>(): (r: Registry<V>)
    ensures Valid(r)
    ensures r.entries.Keys == {}
  {
    Registry([], map[])
  }

  /** `Map.prototype.get`: the value under `k`, or `undefined`. */
  function Get<V>(r: Registry<V>, k: string): (o: Option<V>)
    ensures o.Some? <==> k in r.entries
    ensures o.Some? ==> o.value == r.entries[k]
  {
    if k in r.entries then Some(r.entries[k]) else None
  }

  /** `Map.prototype.set`: insert-or-replace. A new key goes to the end of
      the order; an existing key keeps its place. */
  function Set<V>(r: Registry<V>, k: string, v: V): (r': Registry<V>)
    requires Valid(r)
    ensures Valid(r')
    ensures r'.entries == r.entries[k := v]
    ensures r.order <= r'.order
    ensures k in r.entries ==> r'.order == r.order
    ensures k !in r.entries ==> r'.order == r.order + [k]
  {
    if k in r.entries then Registry(r.order, r.entries[k := v])
    else Registry(r.order + [k], r.entries[k := v])
  }

  /** `Map.prototype.delete`: removes `k` if present. */
  function Delete<V>(r: Registry<V>, k: string): (r': Registry<V>)
    requires Valid(r)
    ensures Valid(r')
    ensures r'.entries == r.entries - {k}
    ensures IsSubsequence(r'.order, r.order)
  {
    FilterKeepsNoDuplicates(r.order, j => j != k);
    Registry(Filter(r.order, j => j != k), r.entries - {k})
  }

  /** The key order after a delete is pinned down by the keys left and the
      old order: any valid registry with those keys whose order keeps the
      old relative order has exactly `Delete`'s order. */
  lemma DeleteOrderUnique<V>(r: Registry<V>, k: string, r2: Registry<V>)
    requires Valid(r) && Valid(r2)
    requires r2.entries.Keys == r.entries.Keys - {k}
    requires IsSubsequence(r2.order, r.order)
    ensures r2.order == Delete(r, k).order
  {
    var d := Delete(r, k);
    forall x ensures x in r2.order <==> x in d.order {
      assert x in r2.entries <==> x in d.entries;
    }
    SubsequenceDetermined(r2.order, d.order, r.order);
  }

  /** `Array.from(map.values())`: the values in key-insertion order, one per
      key. */
  function Values<V>(r: Registry<V>): (vs: seq<V>)
    requires Valid(r)
    ensures |vs| == |r.order| == |r.entries|
    ensures forall i :: 0 <= i < |vs| ==> r.order[i] in r.entries && vs[i] == r.entries[r.order[i]]
    ensures forall k :: k in r.entries ==> r.entries[k] in vs
  {
    KeysCardinality(r);
    var vs := seq(|r.order|, i requires 0 <= i < |r.order| => r.entries[r.order[i]]);
    assert forall k :: k in r.entries ==> exists i :: 0 <= i < |r.order| && r.order[i] == k && vs[i] == r.entries[k];
    vs
  }

  /** The insertion order has exactly as many positions as there are keys. */
  lemma KeysCardinality<V>(r: Registry<V>)
    requires Valid(r)
    ensures |r.order| == |r.entries|
  {
    DistinctCardinality(r.order);
    assert (set x | x in r.order) == r.entries.Keys;
  }

  /** Overwriting an existing key changes only that key's slot of `Values`;
      a new key adds its value at the end. */
  lemma ValuesOfSet<V>(r: Registry<V>, k: string, v: V)
    requires Valid(r)
    ensures k !in r.entries ==> Values(Set(r, k, v)) == Values(r) + [v]
    ensures k in r.entries ==>
      |Values(Set(r, k, v))| == |Values(r)| &&
      forall i :: 0 <= i < |Values(r)| ==>
        Values(Set(r, k, v))[i] == if r.order[i] == k then v else Values(r)[i]
  {
  }
}
