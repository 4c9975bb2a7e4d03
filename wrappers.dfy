/** Failure-compatible wrappers: `Option` for a value that may be absent (a Java
    `null`), `Result` for a computation that may throw. */
module Wrappers {

  datatype Option<+T> = None | Some(value: T)

  datatype Result<+R, +E> = Success(value: R) | Failure(error: E)
}
