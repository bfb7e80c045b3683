/** Option, Result and Outcome: the model's stand-ins for `null`, for a value-or-throw,
    and for a function that either returns normally or throws. */
module Wrappers {

  datatype Option<+T> = None | Some(value: T)

  datatype Result<+R, +E> = Ok(value: R) | Err(error: E)

  datatype Outcome<+E> = Pass | Fail(error: E)
}
