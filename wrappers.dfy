/** The optional value used for JavaScript's `null` results (no location, no end instant, no regex match). */
module Wrappers {

  datatype Option<+T> = None | Some(value: T)
}
