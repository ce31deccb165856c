// The error codes of the library and the value-or-error results built on them.
module Results {

  datatype Error =
    | BufferTooSmall
    | BadMseo
    | Truncated
    | Invalid
    | MissingField
    | Unsupported
    | TraceEof
    | NotSynced
    | HistOverflow
    | IcntOverflow
    | StackEmpty
    | Mismatch

  datatype Result<+T> = Ok(value: T) | Err(error: Error) {

    predicate IsFailure() {
      Err?
    }

    function PropagateFailure<U>(): Result<U>
      requires Err?
    {
      Err(error)
    }

    function Extract(): T
      requires Ok?
    {
      value
    }
  }

  datatype Option<+T> = None | Some(value: T)
}
