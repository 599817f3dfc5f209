/** Absence and error results, used in place of null pointers and C++ exceptions. */
module Wrappers {

  /** An optional value: None plays the role of a null pointer. */
  datatype Option<+T> = None | Some(value: T)

  /** The outcome of a construction that may fail with an error. */
  datatype Result<+R, +E> = Success(value: R) | Failure(error: E)
}
