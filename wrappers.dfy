/** The optional value and the value-or-error outcome used throughout the model:
    `null` returns of the TypeScript code become `None`, thrown errors become `Failure`. */
module Wrappers {

  datatype Option<+T> = None | Some(value: T)

  datatype Result<+R, +E> = Success(value: R) | Failure(error: E)
}
