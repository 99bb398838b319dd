/** The optional value used wherever the browser code reads something that may be
    `null` or `undefined` (a missing storage key, a missing cookie, an absent dataset
    attribute). */
module Wrappers {

  datatype Option<+T> = None | Some(value: T)
}
