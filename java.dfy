/** The few pieces of the Java runtime that the server code relies on. */
module Java {
  import opened Wrappers

  /** The exceptions the modelled server code raises or lets through. */
  datatype Exception =
    | IOException(message: string)
    | RuntimeException(message: string)
    | IllegalArgumentException(message: string)
      /** Optional.orElseThrow() on an empty Optional */
    | NoSuchElementException
      /** a Spring Data query declared to return at most one row matched several */
    | IncorrectResultSizeDataAccessException(actualSize: nat)
      /** AuthenticationManager.authenticate rejected the credentials */
    | AuthenticationException

  /** The result of a Java call: it returns normally or it throws. */
  datatype Outcome<+T> = Normal(value: T) | Thrown(exception: Exception)

  /** A possibly null String in a concatenation: null prints as "null". */
  function Str(s: Option<string>): string {
    match s
    case Some(v) => v
    case None => "null"
  }
}
