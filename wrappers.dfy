/** Values that may be absent, and outcomes of operations that may throw. */
module Wrappers {

  /** A value that may be absent: Java's `null`. */
  datatype Option<+T> = None | Some(value: T)

  /** The outcome of an operation that may throw. Only the fact that an
      exception happened matters to the model, so `Failed` carries nothing. */
  datatype Result<+T> = Ok(value: T) | Failed
}
