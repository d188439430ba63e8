/** The optional value of the source's "value or None" returns. */
module Wrappers {
  datatype Option<+T> = None | Some(value: T)
}
