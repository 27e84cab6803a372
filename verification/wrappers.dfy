/** Failure-carrying results shared by every module of the model. */
module Wrappers {

  /** A value that may be absent: std::optional, or a C++ function that
      signals failure by returning an empty pair. */
  datatype Option<+T> = None | Some(value: T)

  /** A computation that either produces a value or stops with an error
      (a thrown exception, a Python error, a fatal exit). */
  datatype Result<+T, +E> = Ok(value: T) | Err(error: E)
}
