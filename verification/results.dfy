/** Exceptions of the interval library, as values. */
module Results {

  datatype Option<+T> = None | Some(value: T)

  /** The class of a thrown error: TypeError, RangeError or a plain Error. */
  datatype Kind = TypeError | RangeError | PlainError

  /** A thrown error; a setter that catches and rethrows keeps the caught one as `inner`. */
  datatype Error = Thrown(kind: Kind) | Rethrown(kind: Kind, inner: Error)

  /** The outcome of a call that returns a value or throws. */
  datatype Result<+T> = Ok(value: T) | Err(error: Error)

  /** The outcome of a call that returns nothing or throws. */
  datatype Outcome = Pass | Fail(error: Error)
}
