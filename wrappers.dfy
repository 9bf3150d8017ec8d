/** The optional value used for JavaScript's `null`/`undefined` and for early returns. */
module Wrappers {
  datatype Option<T> = None | Some(value: T)
}
