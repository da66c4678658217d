// A value that may be missing; used wherever the source loops until a
// condition that a corrupt table might never reach.
module Wrappers {
  datatype Option<T> = None | Some(value: T)
}
