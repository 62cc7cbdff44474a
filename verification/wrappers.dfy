/** Failure-carrying datatypes shared by the whole model. */
module Wrappers {

  /** A value that may be absent; stands for Rust's `Option`. */
  datatype Option<+T> = None | Some(value: T)

  /** A value or an error; stands for the places where the source calls
      `unwrap()` on a `Result` and would abort instead of continuing. */
  datatype Result<+T, +E> = Ok(value: T) | Err(error: E)
}
