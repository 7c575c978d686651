/** Optional values and the failures the repository lets escape to its callers. */
module Outcomes {

  /** A value that may be absent: Java's `null` where the repository tolerates it. */
  datatype Option<+T> = None | Some(value: T)

  /** The exceptions ChildRepository throws. */
  datatype Error =
    /** `get` found no row with the requested id (the source throws NullPointerException(id)). */
    | NullPointer(message: string)
    /** `createOrUpdate`: `replace` reported a row id that is not positive. */
    | IllegalArgument(rowId: int)
    /** `rawQuery` was given SQL that SQLite cannot parse (it throws SQLiteException). */
    | SqlSyntax(query: string)

  /** The outcome of an operation that returns a value or throws. */
  datatype Result<+T> = Ok(value: T) | Fail(error: Error)

  /** The outcome of an operation that returns nothing or throws. */
  datatype Outcome = Pass | Raise(error: Error)
}
