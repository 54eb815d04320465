/** An optional value: the outcome of an `int(...)` that may raise ValueError. */
module Wrappers {
  datatype Option<T> = None | Some(value: T)
}
