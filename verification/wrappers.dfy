/** Failure-carrying results: `Option` for the arithmetic that panics on
    overflow, `Result` for the operations whose argument checks panic. */
module Wrappers {

  datatype Option<+T> = None | Some(value: T)

  datatype Result<+R, +E> = Success(value: R) | Failure(error: E)
}
