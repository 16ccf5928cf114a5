/** Absent values and failing operations. */
module Wrappers {

  /** A value that may be missing: a SQL NULL, a pandas NA, a Python None. */
  datatype Option<+T> = None | Some(value: T)

  /** The outcome of an operation that may raise. */
  datatype Result<+R, +E> = Success(value: R) | Failure(error: E)
}
