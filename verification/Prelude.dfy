/** Value carriers shared by every module. */
module Prelude {

  datatype Option<+T> = None | Some(value: T)

  /** The outcome of an operation that the source ends with either a return or a raise. */
  datatype Result<+T, +E> = Ok(value: T) | Err(error: E)
}
