/** The optional value used for `undefined`-or-value state and for parse results. */
module Wrappers {

  datatype Option<+T> = None | Some(value: T)
}
