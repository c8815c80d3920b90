/** Option and Result: the failure-carrying values the model uses where the
    source raises an exception or may find nothing. */
module Wrappers {

  datatype Option<+T> = None | Some(value: T)

  datatype Result<+T, +E> = Ok(value: T) | Err(error: E)
}
