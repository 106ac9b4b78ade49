/** A JavaScript `Map` with string keys. Besides its entries it has an
    order: iteration (`values()`, `keys()`) visits keys in the order they
    were first set, and setting a key that is already present keeps its
    place. */
module JsMaps {

  datatype JsMap<V> = JsMap(keys: seq<string>, entries: map<string, V>)

  /** The keys are listed once each, and they are the entries' keys. */
  ghost predicate WellFormed<V>(m: JsMap<V>) {
    && (forall i, j :: 0 <= i < j < |m.keys| ==> m.keys[i] != m.keys[j])
    && (forall k :: k in m.entries <==> k in m.keys)
  }

  /** `new Map()`. */
  function EmptyMap<V>(): (m: JsMap<V>)
    ensures WellFormed(m) && m.entries == map[]
  {
    JsMap([], map[])
  }

  /** `m.set(k, v)`. */
  function MapSet<V>(m: JsMap<V>, k: string, v: V): (r: JsMap<V>)
    ensures r.entries == m.entries[k := v]
    ensures k in m.entries ==> r.keys == m.keys
    ensures k !in m.entries ==> r.keys == m.keys + [k]
    ensures WellFormed(m) ==> WellFormed(r)
  {
    if k in m.entries then JsMap(m.keys, m.entries[k := v])
    else JsMap(m.keys + [k], m.entries[k := v])
  }

  /** `[...m.values()]`: one value per key, in insertion order of the keys. */
  function MapValues<V>(m: JsMap<V>): (r: seq<V>)
    requires WellFormed(m)
    ensures |r| == |m.keys|
    ensures forall i :: 0 <= i < |r| ==> r[i] == m.entries[m.keys[i]]
  {
    seq(|m.keys|, i requires 0 <= i < |m.keys| => m.entries[m.keys[i]])
  }
}
