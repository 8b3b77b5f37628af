/**
 * A value that may be absent: JavaScript's null and Python's None. A JavaScript
 * `undefined` is not modelled; where the code compares with `=== null` it
 * behaves differently from null.
 */
module Wrappers {

  datatype Option<+T> = None | Some(value: T)
}
