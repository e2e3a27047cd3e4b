/** Option type used for the partial conversions of the reader (Python's `float()`
    and `int()` on a token). */
module Wrappers {

  datatype Option<+T> = None | Some(value: T)
}
