/** The optional value that stands for JavaScript's `undefined` result and for a thrown-and-caught error. */
module Wrappers {

  datatype Option<+T> = None | Some(value: T)
}
