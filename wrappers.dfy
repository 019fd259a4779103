/** Option and result wrappers shared by the whole model. */
module Wrappers {

  /** A value that may be absent: the model's stand-in for a C# or JavaScript `null`. */
  datatype Option<+T> = None | Some(value: T)
  {
    function GetOr(default: T): T
    {
      match this
      case Some(v) => v
      case None => default
    }
  }

  /** The outcome of an operation that the source can end by throwing. */
  datatype Result<+T> = Success(value: T) | Failure(error: string)
}
