/** Optional values and results with an error, shared by the store modules. */
module Wrappers {

  /** An absent value (`null` / `undefined` in the source) or a present one. */
  datatype Option<+T> = None | Some(value: T)

  /** The outcome of an operation that either returns a value or throws. */
  datatype Result<+T, +E> = Ok(value: T) | Err(error: E)
}
