/** The exceptions the entity classes throw, and the two shapes of a call that may throw one. */
module Exceptions {

  /** One constructor per exception class the core throws (namespace AMC\Exceptions). */
  datatype Error =
    | BlankObject
    | QueryStatement
    | DuplicateEntry
    | MissingPrerequisite
    | InvalidUser
    | InvalidGroup
    | InvalidRank
    | InvalidMission
    | InvalidIntelligenceType
    /**
     * Not an exception class of the application: mysqli refusing a binding
     * of the wrong length, either `bind_param` with a type string or value
     * list that does not match the placeholder count, or `bind_result` with
     * a variable count that does not match the column count.  PHP 8 throws
     * there (ArgumentCountError or ValueError).
     */
    | BindMismatch

  /** A call that returns nothing: it returns normally (Pass) or throws (Fail). */
  datatype Outcome = Pass | Fail(error: Error)

  /** A call that returns a value or throws. */
  datatype Result<+T> = Ok(value: T) | Err(error: Error)
}
