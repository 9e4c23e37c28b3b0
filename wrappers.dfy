/** Option and Result values used for missing data and for the exceptions the scripts raise. */
module Wrappers {

  /** None stands for a missing value (a NaN pixel, an absent key, a value that failed to parse). */
  datatype Option<+T> = None | Some(value: T)

  /** Failure stands for an exception that aborts the operation that raised it. */
  datatype Result<+R, +E> = Success(value: R) | Failure(error: E)
}
