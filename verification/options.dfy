/** Rust's `Option<T>`: the absent/present outcome of the pop operations and searches. */
module Options {
  datatype Option<+T> = None | Some(value: T)
}
