/** Failure-compatible wrappers for the model and the errors the ledger
    pipeline can raise. */
module Results {

  /** A value that may be absent. */
  datatype Option<+T> = None | Some(value: T)

  /** The exceptions the ledger script lets escape, by cause. */
  datatype Error =
    | NoHeaderLine          // `lines[0]` on a file with no lines (IndexError)
    | MissingKey(key: string) // `record[key]` on an absent key (KeyError)
    | NotANumber            // arithmetic on a text field (TypeError)
    | DivisionByZero        // the linear fallback with a zero duration
    | FractionalDuration    // a duration that is not a whole number: outside the model

  /** Either a computed value or the error that stopped the computation;
      usable with `:-`. */
  datatype Result<+T> = Ok(value: T) | Err(error: Error) {

    predicate IsFailure() {
      Err?
    }

    function PropagateFailure<U>(): Result<U>
      requires Err?
    {
      Err(error)
    }

    function Extract(): T
      requires Ok?
    {
      value
    }
  }
}
