/** Optional and pass/fail result types used by the note store. */
module Wrappers {

  /** A value that may be absent: the store's nullable returns (`Int?`, `String?`, `Note?`). */
  datatype Option<+T> = None | Some(value: T)

  /** The outcome of an operation that returns nothing but may fail. */
  datatype Outcome<+E> = Pass | Fail(error: E)
}
