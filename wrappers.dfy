/** Rust's `Option`, the result of a lookup or of a partial conversion. */
module Wrappers {

  datatype Option<+T> = None | Some(value: T)
}
