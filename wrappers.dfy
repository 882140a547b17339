/** Failure-compatible wrappers shared by every module: `Option` stands for a C# reference
    that may be null, `Result` for a computation that may throw one of the .NET exceptions
    the modelled code can raise. */
module Wrappers {

  datatype Option<+T> = None | Some(value: T) {
    function GetOr(default: T): T {
      match this
      case Some(v) => v
      case None => default
    }
  }

  /** The .NET exception types the modelled code can throw. */
  datatype Exception =
    | ArgumentException          // duplicate key in a dictionary
    | ArgumentNullException      // null key given to a hashtable lookup
    | ArgumentOutOfRangeException
    | EndOfStreamException       // BinaryReader read past the end of its stream
    | WebException               // a download failure other than HTTP 404
    | NullReferenceException     // a member read through a null reference

  datatype Result<+T> = Ok(value: T) | Throws(error: Exception) {
    predicate IsFailure() { Throws? }
    function PropagateFailure<U>(): Result<U>
      requires Throws?
    {
      Throws(error)
    }
    function Extract(): T
      requires Ok?
    {
      value
    }
  }
}
