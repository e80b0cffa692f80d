/** Option and Result, used for Java's nullable references and thrown exceptions. */
module Wrappers {

  /** `None` stands for Java's `null` (or an empty `Optional`). */
  datatype Option<+T> = None | Some(value: T)

  /** `Err` stands for an exception thrown out of an operation. */
  datatype Result<+T, +E> = Ok(value: T) | Err(error: E)
}
