/** Failure-compatible wrappers shared by every module of the model.
    `Option` stands for a C# reference that may be null, `Result` for a
    computation that may throw; `Exception` names the exceptions the modelled
    code can raise. */
module Wrappers {

  datatype Option<+T> = None | Some(value: T) {
    function GetOr(default: T): T {
      match this
      case Some(v) => v
      case None => default
    }
  }

  /** The .NET exceptions the modelled code throws, by type; the message is
      kept only where the code chooses it. */
  datatype Exception =
    | NullReferenceException
    | ArgumentOutOfRangeException
    | FormatException
    | OverflowException
    | ArgumentException(message: string)
    | IgesException(message: string)

  datatype Result<+T> = Success(value: T) | Failure(error: Exception) {
    predicate IsFailure() {
      Failure?
    }

    function PropagateFailure<U>(): Result<U>
      requires Failure?
    {
      Failure(error)
    }

    function Extract(): T
      requires Success?
    {
      value
    }
  }
}
