/** Failure-compatible wrappers: C# null becomes `None`, thrown exceptions become `Thrown`. */
module Wrappers {

  /** A value that may be absent (a C# null reference or a null string). */
  datatype Option<+T> = None | Some(value: T) {

    /** `x ?? d` */
    function GetOr(d: T): T {
      if Some? then value else d
    }
  }

  /** The exception kinds that the modelled code lets escape to its callers. */
  datatype Exception =
    | JsonException          // a document that does not match the requested shape
    | NullReferenceException // a member access on null
    | ArgumentNullException  // a LINQ operator handed a null sequence

  /** The result of an operation that may throw. */
  datatype Outcome<+T> = Ok(value: T) | Thrown(error: Exception)
}
