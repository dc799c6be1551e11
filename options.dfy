/** Rust's `Option`, used for a word's input and for the optional read-outs. */
module Options {

  datatype Option<T> = None | Some(value: T)
}
