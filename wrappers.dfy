/** The optional value used for lookups and findings. */
module Wrappers {
  datatype Option<+T> = None | Some(value: T)
}
