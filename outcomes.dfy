/** Option and Result, the two shapes used for "maybe absent" and "succeeded or threw". */
module Outcomes {
  datatype Option<T> = None | Some(value: T)

  /** A call that either returns a value or throws an error. */
  datatype Result<T, E> = Ok(value: T) | Err(error: E)
}
