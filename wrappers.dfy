/** The optional value used for "not found" results and for a decoder that
    may fail. */
module Wrappers {
  datatype Option<+T> = None | Some(value: T)
}
