/** The optional value used for operations of the codec that can throw in the source. */
module Wrappers {
  datatype Option<+T> = None | Some(value: T)
}
