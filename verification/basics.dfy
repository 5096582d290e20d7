/** Small failure-carrying datatypes shared by the other modules. */
module Basics {

  /** A value that may be absent (Python's `None`). */
  datatype Option<+T> = None | Some(value: T)

  /** Either a value or the error that a Python call would raise. */
  datatype Result<+T, +E> = Success(value: T) | Failure(error: E)

  /** Looks `k` up in `m`, as Python's `dict.get`. */
  function Get<K, V>(m: map<K, V>, k: K): (r: Option<V>)
    ensures r.Some? <==> k in m
    ensures r.Some? ==> r.value == m[k]
  {
    if k in m then Some(m[k]) else None
  }
}
