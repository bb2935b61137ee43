/** Option and Result, used wherever the modelled code returns nil/null or
    raises a validation error. */
module Wrappers {

  datatype Option<+T> = None | Some(value: T)

  datatype Result<+R, +E> = Success(value: R) | Failure(error: E)
}
