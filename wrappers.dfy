/** Rust's `Option`, the only failure-compatible type the engine needs. */
module Wrappers {

  datatype Option<+T> = None | Some(value: T)
}
