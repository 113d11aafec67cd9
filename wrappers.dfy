/** The optional-value datatype the model uses for Rust's `Option`. */
module Wrappers {
  datatype Option<+T> = None | Some(value: T)
}
