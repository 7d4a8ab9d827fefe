/** NULL-able columns and error returns. */
module Wrappers {

  /** A nullable column value: `None` is SQL NULL and Python `None`. */
  datatype Option<T> = None | Some(value: T)

  /** The outcome of an operation that can raise: `Err` stands for the exception. */
  datatype Result<T, E> = Ok(value: T) | Err(error: E)
}
