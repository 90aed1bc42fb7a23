/** Option and Result values shared by the feature-gate and shoot-quota models. */
module Wrappers {

  /** An optional value; `None` stands for Go's nil or an empty string. */
  datatype Option<+T> = None | Some(value: T)

  /** A value or the error that prevented computing it. */
  datatype Result<+R, +E> = Success(value: R) | Failure(error: E)
}
