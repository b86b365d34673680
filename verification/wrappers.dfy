/** Failure-carrying result types shared by the registry and the encoder. */
module Wrappers {

  /** An optional value: the Python `None` / present distinction. */
  datatype Option<+T> = None | Some(value: T)

  /** The outcome of an operation that can raise: `Err` carries what was raised. */
  datatype Result<+T, +E> = Ok(value: T) | Err(error: E)
}
