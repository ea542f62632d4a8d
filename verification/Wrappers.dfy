/** Option and Result for the source's optional values and errors, and outcomes of calls that can
    panic. */
module Wrappers {
  datatype Option<+T> = None | Some(value: T)

  datatype Result<+T, +E> = Ok(value: T) | Err(error: E)

  datatype Outcome<+T> = Returned(value: T) | Panicked
}
