/** The optional value returned by `parent` and `pop`: Rust's `Option<T>`. */
module Options {

  datatype Option<+T> = None | Some(value: T)

}
