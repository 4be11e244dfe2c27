/** Option and Result, used for .NET's nullable references and for the exceptions
    thrown while a validator is being constructed. */
module Wrappers {

  /** A reference that may be null: `None` is null, `Some(v)` a non-null value. */
  datatype Option<+T> = None | Some(value: T)

  /** The outcome of an operation that either returns a value or throws. */
  datatype Result<+T, +E> = Ok(value: T) | Err(error: E)
}
