/** The optional result that the encoders return in place of Rust's `Option`. */
module Wrappers {

  datatype Option<+T> = None | Some(value: T)
}
