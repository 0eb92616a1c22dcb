/** Option and Result datatypes shared by the other modules. */
module Wrappers {

  /** A value that may be missing (a NaN or an empty cell in a data frame). */
  datatype Option<+T> = None | Some(value: T)

  /** The outcome of an operation that can fail with an error of type E. */
  datatype Result<+T, +E> = Success(value: T) | Failure(error: E)
}
