/** Option and Result, the shapes used for nullable cells and for raised errors. */
module Wrappers {

  /** A nullable value: None stands for pandas' NaN/None/NaT. */
  datatype Option<+T> = None | Some(value: T)

  /** The outcome of an operation that may raise instead of returning. */
  datatype Result<+T, +E> = Success(value: T) | Failure(error: E)
}
