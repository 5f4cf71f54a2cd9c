/** Optional values: the model's counterpart of a field or result that may be `undefined`. */
module Wrappers {

  datatype Option<+T> = None | Some(value: T)

  /** `m.get(k)` of a JavaScript Map: the bound value if any, else absent. */
  function Lookup<K, V>(m: map<K, V>, k: K): (r: Option<V>)
    ensures r.Some? <==> k in m
    ensures r.Some? ==> r.value == m[k]
  {
    if k in m then Some(m[k]) else None
  }
}
