/** Failure-carrying values shared by the model: `Option` for a lookup or parse
    that may produce nothing, `Result` for an operation that may fail with a cause. */
module Wrappers {

  datatype Option<+T> = None | Some(value: T)

  datatype Result<+R, +E> = Success(value: R) | Failure(error: E)
}
