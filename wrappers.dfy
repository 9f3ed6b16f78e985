/** Failure-compatible result types shared by the other modules. */
module Wrappers {

  /** A value that may be absent: a missing field or a `null`/`undefined` result. */
  datatype Option<+T> = None | Some(value: T)

  /** Either the value a resolver produced or the error it raised. */
  datatype Result<+R, +E> = Success(value: R) | Failure(error: E)
}
