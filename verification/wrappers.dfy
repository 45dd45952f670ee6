/** Failure-compatible wrappers shared by the model: Option stands for a C
    pointer that may be NULL, Result for a value-or-error return. */
module Wrappers {

  datatype Option<+T> = None | Some(value: T)

  datatype Result<+R, +E> = Success(value: R) | Failure(error: E)
}
