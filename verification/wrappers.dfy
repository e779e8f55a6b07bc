/** An optional value (a Java reference that may be null) and a result (the
    outcome of an operation that may throw). */
module Wrappers {

  datatype Option<+T> = None | Some(value: T)

  datatype Result<+R, +E> = Success(value: R) | Failure(error: E)
}
