/** Failure-carrying values: `Option` stands for a C# reference that may be
    null, `Result` and `Outcome` for a call that may throw. */
module Wrappers {

  datatype Option<+T> = None | Some(value: T) {
    function GetOr(default: T): T {
      match this
      case Some(v) => v
      case None => default
    }
  }

  datatype Result<+R, +E> = Success(value: R) | Failure(error: E)

  /** The outcome of a `void` operation that either completes or throws. */
  datatype Outcome<+E> = Pass | Fail(error: E)
}
