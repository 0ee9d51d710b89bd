/** The optional value used for Python's "no result" outcomes (a failed `int()`, a skipped line, a missing file). */
module Wrappers {
  datatype Option<+T> = None | Some(value: T)
}
