/** Option and Result, for the null references and the exceptions of the source. */
module Wrappers {

  /** A value or its absence (a C# null reference). */
  datatype Option<+T> = None | Some(value: T)

  /** A value or the error that stopped its computation (a C# exception). */
  datatype Result<+T, +E> = Success(value: T) | Failure(error: E)
}
