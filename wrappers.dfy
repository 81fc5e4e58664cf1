/** Option and Result: the explicit success/failure values the model uses
    where the Go code returns a `(value, ok)` pair or an `error`. */
module Wrappers {

  datatype Option<+T> = None | Some(value: T)

  datatype Result<+T, +E> = Ok(value: T) | Err(error: E)
}
