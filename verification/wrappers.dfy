/** Failure-carrying return types used in place of the driver's `NULL` and
    negative-`herr_t` error returns. */
module Wrappers {

  datatype Option<+T> = None | Some(value: T)

  /** A value, or the error the driver would have pushed on the error stack. */
  datatype Result<+T, +E> = Success(value: T) | Failure(error: E)

  /** `SUCCEED`, or `FAIL` together with the reason. */
  datatype Outcome<+E> = Pass | Fail(error: E)
}
