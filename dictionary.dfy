/** A .NET Dictionary<string, V> from which nothing is ever removed. Such a
    dictionary enumerates its entries in the order their keys were first
    added, which is what the pipelines' `foreach` loops over a dictionary
    observe; `keys` records that order. */
module Dictionaries {

  predicate Distinct(s: seq<string>) {
    forall i, j :: 0 <= i < j < |s| ==> s[i] != s[j]
  }

  datatype Dict<V> = Dict(keys: seq<string>, entries: map<string, V>)
  {
    /** Every key is enumerated exactly once. */
    ghost predicate Valid() {
      Distinct(keys) && entries.Keys == set k | k in keys
    }

    /** `d[key] = value`: replaces the value of a present key in place and
        appends a new key at the end of the enumeration order. */
    function Set(key: string, value: V): (d: Dict<V>)
      requires Valid()
      ensures d.Valid()
      ensures d.entries == entries[key := value]
      ensures key in entries ==> d.keys == keys
      ensures key !in entries ==> d.keys == keys + [key]
    {
      if key in entries then Dict(keys, entries[key := value])
      else Dict(keys + [key], entries[key := value])
    }
  }

  /** `new Dictionary<string, V>()`. */
  function Empty<V>(): (d: Dict<V>)
    ensures d.Valid() && d.keys == [] && d.entries == map[]
  {
    Dict([], map[])
  }
}
