/** Option and Result, the stand-ins for Python's `None` and for an exception
    that ends a job before it writes anything. */
module Wrappers {

  datatype Option<+T> = None | Some(value: T)

  datatype Result<+R, +E> = Success(value: R) | Failure(error: E)
}
