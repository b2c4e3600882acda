/** Option and Result values shared by the other modules. */
module Wrappers {

  /** A value that may be absent; `None` also stands for a null C pointer. */
  datatype Option<+T> = None | Some(value: T)

  /** The outcome of an operation that raises instead of returning on error. */
  datatype Result<+T, +E> = Ok(value: T) | Err(error: E)
}
