/** Failure-carrying results: `Option` for an operation that may panic without
    a payload, `Result` for one that reports a typed error. */
module Outcomes {

  datatype Option<+T> = None | Some(value: T)

  datatype Result<+T, +E> = Success(value: T) | Failure(error: E)
}
