/** Option and Result: the absent-value and raised-exception outcomes of the scanner. */
module Wrappers {

  datatype Option<+T> = None | Some(value: T)

  datatype Result<+T, +E> = Success(value: T) | Failure(error: E)
}
