/** The optional value used for JavaScript's `undefined` fields and for thrown exceptions. */
module Wrappers {

  datatype Option<+T> = None | Some(value: T)
}
