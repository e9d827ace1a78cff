/** Values that JavaScript may leave `undefined`, and the truthiness test the
    dashboard applies to them before rendering. */
module Optional {

  /** `None` stands for JavaScript's `undefined` (a key missing from an object). */
  datatype Option<+T> = None | Some(value: T)

  /** JavaScript truthiness of a possibly-undefined string: `undefined` and the
      empty string are falsy, every other string is truthy. */
  predicate Truthy(v: Option<string>) {
    v.Some? && v.value != ""
  }

  /** Property access `m[k]` on a plain object: the value, or `undefined`. */
  function Get<K, V>(m: map<K, V>, k: K): Option<V>
  {
    if k in m then Some(m[k]) else None
  }
}
