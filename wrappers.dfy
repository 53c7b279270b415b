/** Option and Result: the absence of a value and an operation's error path. */
module Wrappers {
  datatype Option<+T> = None | Some(value: T)

  /** A JavaScript exception is modelled as an `Err` carrying its message. */
  datatype Result<+T> = Ok(value: T) | Err(message: string)
}
