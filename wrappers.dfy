/** Failure-carrying results: `Option` for Swift optionals, `Result` for throwing calls. */
module Wrappers {

  datatype Option<+T> = None | Some(value: T)

  datatype Result<+T, +E> = Success(value: T) | Failure(error: E)
}
