/** Option and Result: the possibly-missing intersection point and the
    exceptions the vertex walker can raise. */
module Wrappers {

  datatype Option<+T> = None | Some(value: T)

  datatype Result<+R, +E> = Ok(value: R) | Err(error: E)
}
