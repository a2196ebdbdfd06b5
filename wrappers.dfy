/** Rust's `Option`, as the core uses it for optional and unwrapped values. */
module Wrappers {

  datatype Option<+T> = None | Some(value: T)
}
