/** Failure-carrying values used where the modelled code either returns
    "nothing", returns a value or an error, or only reports an error. */
module Wrappers {

  datatype Option<+T> = None | Some(value: T)

  datatype Result<+T, +E> = Success(value: T) | Failure(error: E)

  datatype Outcome<+E> = Pass | Fail(error: E)
}
