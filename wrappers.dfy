/** Option and Result values standing in for the source's nullable references and exceptions. */
module Wrappers {

  /** A value that may be absent; `None` models a C# `null`. */
  datatype Option<+T> = None | Some(value: T)

  /** A computation that either produced a value or raised an exception with a message. */
  datatype Result<+T> = Ok(value: T) | Err(message: string)
}
