/** Small wrappers shared by the other modules: an optional value
    (a JavaScript value that may be `undefined`) and a value-or-error result
    (a call that either returns or throws). */
module Wrappers {

  datatype Option<+T> = None | Some(value: T)

  datatype Result<+R, +E> = Success(value: R) | Failure(error: E)
}
