/** Option and Result, used for the absent (null) inputs and the
    construction errors of the word finder. */
module Wrappers {

  datatype Option<+T> = None | Some(value: T)

  datatype Result<+T, +E> = Success(value: T) | Failure(error: E)
}
