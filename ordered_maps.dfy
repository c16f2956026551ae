/** Python's `dict`, which remembers the order its keys were first inserted in. */
module OrderedMaps {
  import opened SyncTypes

  /** A dict with string keys: its keys in insertion order and its entries. */
  datatype ODict<V> = ODict(keys: seq<string>, values: map<string, V>) {

    /** The key list has no repeats and names exactly the entries. */
    predicate Valid()
    {
      Distinct(keys) && values.Keys == set k | k in keys
    }

    /** `d[k] = v`: a new key goes to the end, an existing one keeps its place. */
    function Put(k: string, v: V): (r: ODict<V>)
      ensures r.values == values[k := v]
      ensures r.keys == if k in values then keys else keys + [k]
      ensures Valid() ==> r.Valid()
    {
      if k in values then ODict(keys, values[k := v]) else ODict(keys + [k], values[k := v])
    }

    /** `d.values()`, in key order. */
    function Items(): (items: seq<V>)
      requires Valid()
      ensures |items| == |keys|
      ensures forall i :: 0 <= i < |keys| ==> items[i] == values[keys[i]]
    {
      seq(|keys|, i requires 0 <= i < |keys| => values[keys[i]])
    }
  }

  /** `{}`. */
  function Empty<V>(): (d: ODict<V>)
    ensures d.Valid() && d.keys == [] && d.values == map[]
  {
    ODict([], map[])
  }
}
