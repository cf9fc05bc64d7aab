/** Error kinds shared by the in-memory backend and the LFU wrapper, and the
    outcome shapes their operations return. */
module CacheErrors {

  /** The kinds of error the backend and the wrappers report; a caller tells
      them apart by kind, never by message. */
  datatype ErrorKind =
    | AlreadyExists
    | DoesNotExist
    | NonPositivePeriod
    | NilUpdateFunc
    | CacheNotEmpty
    | UnexpectedError

  datatype Option<+T> = None | Some(value: T)

  /** A value or the kind of error that prevented computing it. */
  datatype Result<+T> = Ok(value: T) | Err(error: ErrorKind)

  /** The state an operation leaves behind together with the error it
      returned, if any. Keeping both lets a contract say that a failed
      operation left the state as it was. */
  datatype Step<+S> = Step(state: S, err: Option<ErrorKind>) {
    predicate Succeeded() { err.None? }
  }
}
