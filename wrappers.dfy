/** Option and Result values used for absent hands, unconfirmed gestures and
    the errors that unpacking the landmark groups can raise. */
module Wrappers {

  datatype Option<+T> = None | Some(value: T)

  datatype Result<+R, +E> = Success(value: R) | Failure(error: E)
}
