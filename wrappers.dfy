/** Failure-carrying results shared by the parser and the formatter. */
module Wrappers {

  datatype Option<+T> = None | Some(value: T)

  /** Either a value or an error kind; the source returns a `(value, error)` pair instead. */
  datatype Result<+T, +E> = Ok(value: T) | Err(error: E)
}
