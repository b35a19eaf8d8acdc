/** Result types of the model: Rust's `Option` and a panicking call. */
module Outcomes {

  datatype Option<+T> = None | Some(value: T)

  /**
    The result of a call that may abort the program: `panic!()` or an
    `unwrap()` of a failed result yields `Panic`.
   */
  datatype Outcome<+T> = Done(value: T) | Panic
}
