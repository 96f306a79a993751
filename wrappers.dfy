/** Option and Result, the failure-carrying values the model uses in place of
    Python's None sentinel and of exceptions. */
module Wrappers {

  datatype Option<+T> = None | Some(value: T)

  datatype Result<+T, +E> = Success(value: T) | Failure(error: E)
}
