/** Option and result types shared by the other modules. */
module Wrappers {

  /** `Some(v)` for a value that is present, `None` for one that is absent. */
  datatype Option<+T> = None | Some(value: T)

  /** A value, or the error that took its place. */
  datatype Result<+R, +E> = Success(value: R) | Failure(error: E)
}
