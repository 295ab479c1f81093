/** The error kinds of the calculator front end and the two wrappers every stage returns. */
module GenericError {

  /** The kinds of failure a stage can report. `OperationNotImplemented` is returned by the
      operator lookup tables; the enum in the repository does not declare it yet. */
  datatype ParsingTokenError =
    | TooManyDots
    | InvalidToken
    | ParenthesisClosedWithoutOpening
    | ParenthesisOpenedWithoutClosing
    | InvalidSequence
    | OperationNotImplemented

  /** Rust's `Result<T, ParsingTokenError>`. */
  datatype Result<+T> = Ok(value: T) | Err(error: ParsingTokenError) {
    /** With the two members below, `:-` propagates an error as Rust's `?` does. */
    predicate IsFailure() {
      Err?
    }

    function PropagateFailure<U>(): Result<U>
      requires Err?
    {
      Err(error)
    }

    function Extract(): T
      requires Ok?
    {
      value
    }
  }

  /** Rust's `Option<T>`. */
  datatype Option<+T> = None | Some(value: T)
}
