/** Failure-carrying values shared by the rest of the model: a file that may be
    absent, and a collaborator call that may raise. */
module Wrappers {

  /** A value that may be missing, such as a file that does not exist yet. */
  datatype Option<+T> = None | Some(value: T) {

    /** The wrapped value, or `default` when there is none. */
    function GetOr(default: T): (r: T)
      ensures Some? ==> r == value
      ensures None? ==> r == default
    {
      match this
      case Some(v) => v
      case None => default
    }
  }

  /** The outcome of a call into code outside the model that may raise an
      exception; `Err` carries the exception's message. */
  datatype Result<+T> = Ok(value: T) | Err(message: string)
}
