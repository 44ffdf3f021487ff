/** Option and Result values for the model: `None` stands for Rust's absence marker and
    `Failure` for the `Err` arm of a `Result`. */
module Wrappers {

  datatype Option<+T> = None | Some(value: T)

  datatype Result<+R, +E> = Success(value: R) | Failure(error: E)
}
