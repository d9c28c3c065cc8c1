/** The Option and Result datatypes shared by the other modules. */
module Wrappers {

  /** An optional value: the Python code's `None` or an index that is out of range. */
  datatype Option<+T> = None | Some(value: T)

  /** The outcome of a step that may raise: a value, or the error that ended it. */
  datatype Result<+T, +E> = Ok(value: T) | Failed(error: E)
}
