/** Optional values (Python's None) and the exceptions the exporter lets escape. */
module Outcome {

  /** A value that may be Python's None (an SQL NULL column, a missing lookup). */
  datatype Option<+T> = None | Some(value: T)

  /** The Python exceptions the core can raise and never catches. */
  datatype Exception =
    | IndexError      // `account.split(':')[1]` on an account without ':'
    | ValueError      // `list.index('Attachments')` when no path segment equals it
    | AttributeError  // `None.lower()` on a message whose service is NULL
    | KeyError        // `last_messages[rowid]` for a ROWID the dictionary lacks
    | TypeError       // `date / 10e8` on a message whose date is NULL

  /** Either a computed value or the exception that aborted the computation. */
  datatype Result<+T> = Ok(value: T) | Err(error: Exception) {
    predicate IsFailure() {
      Err?
    }

    function PropagateFailure<U>(): Result<U>
      requires Err?
    {
      Err(error)
    }

    function Extract(): T
      requires Ok?
    {
      value
    }
  }
}
