/** Optional values, used where the script returns `null` or `undefined`. */
module Wrappers {
  datatype Option<+T> = None | Some(value: T)

  /** A map lookup that reports an absent key as None, like `getProperty`. */
  function Get<K, V>(m: map<K, V>, k: K): (r: Option<V>)
    ensures r.Some? <==> k in m
    ensures r.Some? ==> r.value == m[k]
  {
    if k in m then Some(m[k]) else None
  }
}
