/** Failure-carrying datatypes shared by the pipeline modules. */
module Wrappers {

  /** A value that may be missing: pandas' NaN cell, or a lookup that found nothing. */
  datatype Option<+T> = None | Some(value: T)

  /** Either a computed value or the reason the run stops. */
  datatype Result<+R, +E> = Success(value: R) | Failure(error: E)
}
