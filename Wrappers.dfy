/** Optional values: `None` stands for a Java `null` reference. */
module Wrappers {

  datatype Option<+T> = None | Some(value: T)

  /** Map lookup that answers `None` for a missing key, as `HashMap.get` answers `null`. */
  function Get<K, W>(m: map<K, W>, k: K): (r: Option<W>)
    ensures r.Some? <==> k in m
    ensures r.Some? ==> r.value == m[k]
  {
    if k in m then Some(m[k]) else None
  }
}
