/** Option and Result values, used for the size hint of a sequence and for
    the outcome of decoding. */
module Wrappers {

  datatype Option<+T> = None | Some(value: T)

  datatype Result<+R, +E> = Success(value: R) | Failure(error: E)
}
