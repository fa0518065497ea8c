/** Small value types shared by the whole model. */
module Prelude {

  /** Rust's `Option`. */
  datatype Option<T> = None | Some(value: T)

  /** The outcome of an operation that panics on some inputs: it either finishes with a value or
      panics with the message the source passes to `assert!`, `unwrap` or `expect`. */
  datatype Fallible<T> = Done(value: T) | Panicked(message: string)

  /** Rust's `std::cmp::Ordering`. */
  datatype Ordering = Less | Equal | Greater
}
