/** Option and Result values used where Go returns a value together with
    an error, or where an operation may have no result at all. */
module Wrappers {

  datatype Option<+T> = None | Some(value: T)

  datatype Result<+R, +E> = Success(value: R) | Failure(error: E)
}
