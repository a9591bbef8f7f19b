/** The optional value used wherever the source gets `undefined` back. */
module Wrappers {
  datatype Option<+T> = None | Some(value: T)
}
