/** The absent-or-present value that Rust's `Option` and iterator `next()` return. */
module Options {

  datatype Option<+T> = None | Some(value: T)

}
