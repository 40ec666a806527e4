/** Failure-carrying result types shared by the modules of this model. */
module Wrappers {

  /** A value that may be missing; None stands for a Python exception the model does not name. */
  datatype Option<+T> = None | Some(value: T)

  /** A value, or the named exception the source would raise instead. */
  datatype Result<+T, +E> = Success(value: T) | Failure(error: E)
}
