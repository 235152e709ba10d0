/** The optional value used for Rust's `Option` and for the outcome of an
    operation that panics (an `unwrap` on nothing, an index out of range). */
module Wrappers {

  datatype Option<+T> = None | Some(value: T)
}
