/** Failure-compatible return types used across the model. */
module Wrappers {

  /** An optional value, standing in for Python's `None`. */
  datatype Option<+T> = None | Some(value: T)

  /** Either a value or the exception `hapFrequency.py` raises. */
  datatype Result<+R, +E> = Success(value: R) | Failure(error: E)
}
