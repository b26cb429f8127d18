/** The Option type used for JavaScript's "value or nothing" results
    (`false` from a failed search, `null` from a missing database field). */
module Wrappers {
  datatype Option<+T> = None | Some(value: T)
}
