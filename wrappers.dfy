/** The optional value used wherever the source returns `undefined` or `null`
    (`Array.prototype.find` with no match, `localStorage.getItem` of a missing key). */
module Wrappers {

  datatype Option<+T> = None | Some(value: T)
}
