/** Absent-or-present values: the model's stand-in for SQL NULL and for
    Python's `None` returned by a lookup that found no row. */
module Wrappers {

  datatype Option<+T> = None | Some(value: T)
}
