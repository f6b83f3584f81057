/** The optional-value type used for JavaScript's `undefined`, for a failing
    percent-decode and for "no such index". */
module Wrappers {

  datatype Option<+T> = None | Some(value: T)
}
