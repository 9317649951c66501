/** Failure-compatible wrappers shared by the whole model.
    `Option` stands for SQL NULL and for Python's `None`; `Result` stands for
    a value or a raised exception whose message is kept as the error. */
module Wrappers {

  datatype Option<+T> = None | Some(value: T)

  datatype Result<+R, +E> = Success(value: R) | Failure(error: E)
}
