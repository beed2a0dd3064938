/** The optional value used wherever the exam screen reads a key that may be missing. */
module Wrappers {

  datatype Option<+T> = None | Some(value: T)
}
