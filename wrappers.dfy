/** The optional value used for nullable fields and for `MaxBy`/`MinBy` on an empty sequence. */
module Wrappers {
  datatype Option<+T> = None | Some(value: T)
}
