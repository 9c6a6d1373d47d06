/** Result types standing for Java's null references and thrown exceptions. */
module Wrappers {

  /** An optional value; None stands for a Java null. */
  datatype Option<+T> = None | Some(value: T)

  /** The outcome of a call that returns a value or throws. */
  datatype Result<+T, +E> = Ok(value: T) | Err(error: E)

  /** The outcome of a void call that returns normally or throws. */
  datatype Outcome<+E> = Pass | Fail(error: E)
}
