/** Wrappers used across the model: `Option` stands for the TypeScript
    `T | null | undefined` results and `Result` for responses that either
    carry a value or an HTTP error. */
module Wrappers {

  datatype Option<+T> = None | Some(value: T)

  datatype Result<+R, +E> = Success(value: R) | Failure(error: E)
}
