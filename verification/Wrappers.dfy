/** A value that may be absent: a SQL NULL, an unset cursor, a missing row. */
module Wrappers {
  datatype Option<+T> = None | Some(value: T)
}
