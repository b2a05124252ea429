/** Option and Result: the model's stand-ins for `null`/`undefined` returns and
    for thrown errors. */
module Wrappers {

  datatype Option<+T> = None | Some(value: T)

  datatype Result<+R, +E> = Success(value: R) | Failure(error: E)
}
