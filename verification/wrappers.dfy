/** Option and Result, standing in for pandas' missing values (NaN, NaT) and
    for the exceptions the analysis can raise. */
module Wrappers {

  /** A value that may be missing, as a NaN float or a NaT timedelta cell. */
  datatype Option<+T> = None | Some(value: T)

  /** The outcome of an operation that can raise. */
  datatype Result<+R, +E> = Success(value: R) | Failure(error: E)
}
