/** Option, used wherever the source has a value that may be Python's `None`. */
module Wrappers {

  datatype Option<+T> = None | Some(value: T)
}
