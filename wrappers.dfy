/** Optional values, call results and call outcomes shared by every module of the model. */
module Wrappers {

  datatype Option<+T> = None | Some(value: T)

  /** The value a Python call returns, or the exception it raises. */
  datatype Result<+T, +E> = Success(value: T) | Failure(error: E)

  /** A Python call run for its effect: it returns normally or raises. */
  datatype Outcome<+E> = Pass | Fail(error: E)
}
