/** The optional value and the success-or-error outcome shared by the
    receiver and the sender models. */
module Wrappers {

  datatype Option<+T> = None | Some(value: T)

  datatype Result<+R, +E> = Success(value: R) | Failure(error: E)
}
