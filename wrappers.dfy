/** The optional value used wherever the page may or may not hold something. */
module Wrappers {

  datatype Option<+T> = None | Some(value: T)
}
