/** Failure-carrying wrappers shared by every module of the model. */
module Wrappers {

  /** Python's `None` or a present value. */
  datatype Option<+T> = None | Some(value: T)

  /** A value, or the error a Python function would have raised instead. */
  datatype Result<+R, +E> = Success(value: R) | Failure(error: E)
}
