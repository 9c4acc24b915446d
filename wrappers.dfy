/** Option and Result values standing in for JavaScript's `null` and for the
    error answers of the HTTP handlers. */
module Wrappers {

  datatype Option<+T> = None | Some(value: T)

  datatype Result<+T, +E> = Success(value: T) | Failure(error: E)
}
