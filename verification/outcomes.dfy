/** Failure-carrying values shared by every module of the model.
    `Option` stands for Python's `None`-or-value results; `Result` stands for
    an operation that either returns or raises. */
module Outcomes {

  datatype Option<+T> = None | Some(value: T)

  datatype Result<+R, +E> = Success(value: R) | Failure(error: E)
}
