/** The optional value that stands for Rust's `Option` and for the `Err` arm of a
    `Result` whose error the program discards. */
module Wrappers {

  datatype Option<+T> = None | Some(value: T)
}
