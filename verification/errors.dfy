/** Error and result types shared by the cookie object, the jar and the wrapper. */
module Errors {

  /** The two exceptions the core throws. */
  datatype Error =
    | Malformed   // "failed to parse cookie string"
    | NotInJar    // "remove: cookie not in cookie jar"

  datatype Option<T> = None | Some(value: T)

  datatype Result<T> = Success(value: T) | Failure(error: Error)

  /** The outcome of an operation that either returns normally or throws. */
  datatype Outcome = Pass | Fail(error: Error)
}
