/** The optional value the extractor returns, as Rust's Option. */
module Wrappers {

  datatype Option<+T> = None | Some(value: T)
}
