/** Option and Result values used where the build script can fail. */
module Wrappers {

  datatype Option<+T> = None | Some(value: T)

  /** `Success` carries the value a stage produced; `Failure` the reason a promise rejected. */
  datatype Result<+R, +E> = Success(value: R) | Failure(error: E)
}
