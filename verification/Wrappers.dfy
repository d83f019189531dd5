/** Values that may be absent. */
module Wrappers {
  datatype Option<+T> = None | Some(value: T)

  /** Map lookup as an option. */
  function Get<K, V>(m: map<K, V>, k: K): Option<V> {
    if k in m then Some(m[k]) else None
  }
}
