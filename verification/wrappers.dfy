/** Option and Result datatypes shared by the other modules. */
module Wrappers {

  /** A value that may be absent; stands for a C# reference that may be null. */
  datatype Option<+T> = None | Some(value: T)

  /** The result of an operation that may throw. */
  datatype Result<+T, +E> = Ok(value: T) | Err(error: E)
}
