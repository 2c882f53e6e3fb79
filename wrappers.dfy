/** Option and Result values: pandas' missing cells and Python's raised errors. */
module Wrappers {

  /** A value that may be missing (a null cell of a data frame). */
  datatype Option<+T> = None | Some(value: T)

  /** The outcome of an operation that raises in the source. */
  datatype Result<+R, +E> = Success(value: R) | Failure(error: E)
}
