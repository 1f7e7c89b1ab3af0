/** Failure-carrying values shared by the model: an optional value and a
    result that is either a value or an error message (Go's `error`). */
module Wrappers {

  datatype Option<+T> = None | Some(value: T)

  datatype Result<+T> = Ok(value: T) | Err(error: string)
}
