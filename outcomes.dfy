/** Option, Result and Outcome: the error returns that the services express by throwing. */
module Outcomes {

  datatype Option<+T> = None | Some(value: T)

  /** A value, or the error the service would have thrown. */
  datatype Result<+T, +E> = Ok(value: T) | Err(error: E)

  /** Success without a value (the `{ success: true }` replies), or an error. */
  datatype Outcome<+E> = Pass | Fail(error: E)
}
