/** The three typed errors the repository raises, and the wrappers that
    carry either a value or one of them. */
module Errors {

  /** InvalidInputError, NotebookNotFoundError and NoteNotFoundError. */
  datatype Error = InvalidInput | NotebookNotFound | NoteNotFound

  /** The outcome of an operation that may raise one of the typed errors. */
  datatype Result<T> = Ok(value: T) | Err(error: Error)

  /** A value or JavaScript's `null`. */
  datatype Option<T> = None | Some(value: T)
  {
    /** `x ?? d`. */
    function GetOr(d: T): T
    {
      match this
      case Some(v) => v
      case None => d
    }
  }
}
