/** Option and Result, used where the JavaScript source has NaN, `undefined` or a thrown error. */
module Wrappers {

  /** `None` stands for JavaScript's NaN where a number is expected. */
  datatype Option<+T> = None | Some(value: T)

  /** `Err` stands for an exception thrown out of an operation. */
  datatype Result<+T, +E> = Ok(value: T) | Err(error: E)
}
