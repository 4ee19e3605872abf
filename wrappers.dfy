/** The optional value returned by one segmenter step. */
module Wrappers {
  datatype Option<+T> = None | Some(value: T)
}
