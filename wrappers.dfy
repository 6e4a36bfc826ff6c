/** The optional value used for Java's nullable references and for a parse that throws. */
module Wrappers {
  datatype Option<+T> = None | Some(value: T)

  /** Java's `Map.get`: the value stored under `k`, or `null` (None) when there is none. */
  function Lookup<K, V>(m: map<K, V>, k: K): (r: Option<V>)
    ensures r.Some? <==> k in m
    ensures r.Some? ==> r.value == m[k]
  {
    if k in m then Some(m[k]) else None
  }
}
