/** Option and Result, used for the library parsers' "no value" and for the stop reasons of a run. */
module Wrappers {

  datatype Option<+T> = None | Some(value: T)

  datatype Result<+T, +E> = Ok(value: T) | Err(error: E)
}
