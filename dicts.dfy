/**
 * Python dictionaries: a key-to-value mapping that also remembers the order
 * in which keys were first inserted (the order in which `items()` iterates).
 * Assigning to a key that is already present keeps its position.
 */
module Dicts {

  datatype Dict<K, V> = Dict(keys: seq<K>, items: map<K, V>)

  /** The insertion order lists every key exactly once. */
  ghost predicate Valid<K, V>(d: Dict<K, V>) {
    && (forall i, j :: 0 <= i < j < |d.keys| ==> d.keys[i] != d.keys[j])
    && d.items.Keys == (set x | x in d.keys)
  }

  function Empty<K, V>(): (d: Dict<K, V>)
    ensures Valid(d) && d.items == map[] && d.keys == []
  {
    Dict([], map[])
  }

  /** `d[k] = v` */
  function Store<K, V>(d: Dict<K, V>, k: K, v: V): (r: Dict<K, V>)
    requires Valid(d)
    ensures Valid(r)
    ensures r.items == d.items[k := v]
    ensures k in d.items ==> r.keys == d.keys
    ensures k !in d.items ==> r.keys == d.keys + [k]
  {
    if k in d.items then Dict(d.keys, d.items[k := v])
    else Dict(d.keys + [k], d.items[k := v])
  }

  /** The values in iteration order, as `d.values()` yields them. */
  function Values<K, V>(d: Dict<K, V>): (vs: seq<V>)
    requires Valid(d)
    ensures |vs| == |d.keys|
    ensures forall i :: 0 <= i < |vs| ==> vs[i] == d.items[d.keys[i]]
  {
    seq(|d.keys|, i requires 0 <= i < |d.keys| => d.items[d.keys[i]])
  }
}
