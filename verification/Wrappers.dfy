/** A value that may be missing: a null pointer, a number that stands for failure. */
module Wrappers {

  datatype Option<+T> = None | Some(value: T)
}
