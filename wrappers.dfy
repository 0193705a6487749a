/** The optional value used wherever the crawler returns Python's `None`. */
module Wrappers {

  datatype Option<+T> = None | Some(value: T)
}
