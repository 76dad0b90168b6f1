/** A value that may be missing: a null reference, or a drawn index that selects nothing. */
module Wrappers {

  datatype Option<T> = None | Some(value: T)
}
