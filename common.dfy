/** Values shared by every part of the crawler model: JavaScript's `null`-or-value,
    and the errors the services throw, as data. */
module Common {

  /** A value that may be JavaScript's `null` (or `undefined`): `None` is the null case. */
  datatype Option<+T> = None | Some(value: T)

  /** The exceptions the modelled services can throw. */
  datatype Failure =
    | ReadFailed    // the snapshot file exists but cannot be read or parsed
    | WriteFailed   // writing the snapshot file failed
    | FetchFailed   // the listing page could not be fetched

  /** The outcome of an operation that returns nothing but may throw. */
  datatype Outcome = Pass | Fail(failure: Failure)

  /** The outcome of an operation that returns a value or throws. */
  datatype Result<+T> = Ok(value: T) | Err(failure: Failure)
}
