/** Failure-carrying values shared by the other modules: `Option` stands for
    Python's `None`-or-value returns, `Result` for a call that may raise. */
module Wrappers {

  datatype Option<+T> = None | Some(value: T)

  datatype Result<+R, +E> = Success(value: R) | Failure(error: E)
}
