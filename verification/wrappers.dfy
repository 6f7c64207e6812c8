/** Failure-carrying wrappers used across the model: `Option` for the
    "no output" sentinel and `Result` for the exceptions the source throws. */
module Wrappers {

  datatype Option<+T> = None | Some(value: T)

  datatype Result<+T, +E> = Success(value: T) | Failure(error: E)
}
