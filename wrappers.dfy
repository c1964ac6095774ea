/** The optional value used for lookups that may fail and for C's NULL results. */
module Wrappers {
  datatype Option<+T> = None | Some(value: T)
}
