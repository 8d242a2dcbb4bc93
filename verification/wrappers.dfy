/** Option and Result: the nullable references and the exception-or-value
    results of the modelled C# code. */
module Wrappers {

  /** A possibly-null reference (C# `T?`). */
  datatype Option<+T> = None | Some(value: T) {

    /** The wrapped value, or `default` when absent (C# `x ?? default`). */
    function GetOr(default: T): T
    {
      match this
      case Some(v) => v
      case None => default
    }
  }

  /** Either a value or the exception an operation threw. */
  datatype Result<+R, +E> = Success(value: R) | Failure(error: E)
}
