/** The optional result of a lookup: Java's `null` return becomes `None`. */
module Wrappers {

  datatype Option<+T> = None | Some(value: T)
}
