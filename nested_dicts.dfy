/**
 * `NestedStrDict`: a dictionary whose values are again such dictionaries,
 * or `None` under the end-of-word key `'$'`.
 */
module NestedDicts {

  /** A nested dictionary keyed by `K`, or Python's `None`. */
  datatype NestedDict<K> = Dict(entries: map<K, NestedDict<K>>) | Null

  /** `{}`. */
  function Empty<K>(): NestedDict<K> {
    Dict(map[])
  }
}
