/** Failure-carrying datatypes shared by the model: an optional value (the
    JavaScript `null`/`undefined` cases) and a result that is either a value
    or the error the source would throw. */
module Wrappers {

  datatype Option<+T> = None | Some(value: T)

  datatype Result<+R, +E> = Success(value: R) | Failure(error: E)
}
