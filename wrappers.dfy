/** Result types for the stores' operations: an optional value, a value or an error, and success or an error. */
module Wrappers {

  datatype Option<+T> = None | Some(value: T)

  /** A value, or the exception the Python code raises instead of returning one. */
  datatype Result<+T, +E> = Success(value: T) | Failure(error: E)

  /** The outcome of an operation that returns nothing but may raise. */
  datatype Outcome<+E> = Pass | Fail(error: E)
}

/** The exceptions the stores raise. */
module Errors {

  datatype Error =
    | KeyError(key: string)   // a read or delete of a key the table has no row for
    | NotImplemented          // `raise NotImplementedError`
    | OperationalError(message: string)  // `sqlite3.OperationalError` with SQLite's message
}
