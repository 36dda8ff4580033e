/** Failure-carrying result types shared by the modules of this model. */
module Wrappers {

  /** An optional value, used where the source returns a nullable pointer. */
  datatype Option<+T> = None | Some(value: T)

  /** A value or an error, used where the source aborts with a CHECK failure
      or returns a non-OK status. */
  datatype Result<+T, +E> = Ok(value: T) | Err(error: E)

  /** Success or an error, for checks that produce no value. */
  datatype Outcome<+E> = Pass | Fail(error: E)
}
