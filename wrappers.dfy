/** Optional values, the error kinds the CSV library raises, and the
    failure-compatible result types that carry them. */
module CsvErrors {

  /** Stands for a Java reference that may be null. */
  datatype Option<+T> = None | Some(value: T)

  /** The exceptions of the library, one variant per kind. */
  datatype Error =
    | NoSuchElement(lineNo: int, position: int, length: int)  // nextField called with no field left
    | UnclosedQuotes(lineNo: int)                            // input ended inside a quoted field
    | NoCommaAfterQuotes(lineNo: int)                        // a closing quote not followed by a comma
    | NullPointer                                            // a null reference was dereferenced or passed
    | ParseError(fieldNo: int, lineNo: int, cause: Error)    // a data row could not be read
    | MissingPrimaryKey                                      // a record without a primary-key field
    | PrimaryKeyColumnAlreadySet(table: string)              // a second key column in a header
    | RecordNotFound(key: string)                            // unify under THROW met an unknown key
    | UnificationConflict(column: string, current: string, candidate: string)

  datatype Result<+T> = Ok(value: T) | Err(error: Error) {
    predicate IsFailure() { Err? }

    function PropagateFailure<U>(): Result<U>
      requires Err?
    {
      Err(error)
    }

    function Extract(): T
      requires Ok?
    {
      value
    }
  }

  /** The result of an operation that returns nothing but may fail. */
  datatype Outcome = Pass | Fail(error: Error) {
    predicate IsFailure() { Fail? }

    function PropagateFailure(): Outcome
      requires Fail?
    {
      this
    }
  }
}
