/** The optional and failure-carrying values the model uses in place of Python's `None`
    and raised exceptions. */
module Wrappers {

  /** `None` plays Python's `None`; `Some(v)` a present value. */
  datatype Option<+T> = None | Some(value: T)

  /** `Err` stands for an exception that aborts the computation. */
  datatype Result<+T, +E> = Ok(value: T) | Err(error: E)
}
