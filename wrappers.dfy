/** Option and Result, used for the "all layers" sentinel and for aborted builds. */
module Wrappers {

  datatype Option<+T> = None | Some(value: T)

  datatype Result<+R, +E> = Success(value: R) | Failure(error: E)
}
