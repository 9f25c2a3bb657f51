// Optional values and results with an error, as the datatypes the rest of
// the model returns.
module Wrappers {
  datatype Option<T> = None | Some(value: T)

  datatype Result<T, E> = Ok(value: T) | Err(error: E)
}
