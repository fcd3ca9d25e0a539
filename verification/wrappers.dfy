/** Failure-carrying datatypes shared by the codec modules. */
module Wrappers {

  /** A value that may be absent. */
  datatype Option<+T> = None | Some(value: T)

  /** Either a value or an error; Go's `(T, error)` pair where exactly one is meaningful. */
  datatype Result<+R, +E> = Success(value: R) | Failure(error: E)

  /** Go's bare `error` return: nil (Pass) or an error value (Fail). */
  datatype Outcome<+E> = Pass | Fail(error: E)
}
