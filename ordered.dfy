/**
 * Python dictionaries with string keys as the parsers use them: iteration follows insertion
 * order, and assigning to a key already present replaces its value without
 * moving it.
 */
module Ordered {

  datatype Dict<V> = Dict(keys: seq<string>, values: map<string, V>)

  /** The key list holds every key once and nothing else. */
  ghost predicate Valid<V>(d: Dict<V>)
  {
    && (forall i, j :: 0 <= i < j < |d.keys| ==> d.keys[i] != d.keys[j])
    && (forall k :: k in d.values <==> k in d.keys)
  }

  /** `{}`. */
  function Empty<V>(): (d: Dict<V>)
    ensures Valid(d) && d.values == map[]
  {
    Dict([], map[])
  }

  /** `d[k] = v`: k now maps to v, every other key keeps its value, and the old keys keep their order. */
  function Put<V>(d: Dict<V>, k: string, v: V): (r: Dict<V>)
    requires Valid(d)
    ensures Valid(r)
    ensures k in r.values && r.values[k] == v
    ensures forall q :: q != k ==> (q in r.values <==> q in d.values) && (q in d.values ==> r.values[q] == d.values[q])
    ensures |d.keys| <= |r.keys| <= |d.keys| + 1 && r.keys[..|d.keys|] == d.keys
  {
    if k in d.values then Dict(d.keys, d.values[k := v]) else Dict(d.keys + [k], d.values[k := v])
  }
}
