/** Wrappers shared by the model: Java's nullable references and Optional
    become Option, a call that may throw becomes Result. */
module Wrappers {

  datatype Option<+T> = None | Some(value: T) {
    /** The value, or `default` when absent (Optional.orElse). */
    function GetOr(default: T): T {
      match this
      case Some(v) => v
      case None => default
    }
  }

  /** The outcome of a call into a collaborator that may throw; the failure
      carries the exception's message. */
  datatype Result<+T> = Ok(value: T) | Err(message: string)
}
