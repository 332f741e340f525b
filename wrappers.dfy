/** Failure-compatible wrappers shared by every module: an optional value
    (JavaScript's `undefined` or a missing row) and the outcome of an
    operation that may throw. */
module Wrappers {

  datatype Option<+T> = None | Some(value: T)

  datatype Result<+T, +E> = Ok(value: T) | Err(error: E)
}
