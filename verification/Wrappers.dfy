/** Optional values: the model's form of a Rust `Option`, and of a `Result` whose error is not inspected. */
module Wrappers {
  datatype Option<+T> = None | Some(value: T)
}
