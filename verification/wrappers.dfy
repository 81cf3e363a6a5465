/** The optional value used wherever the program reports "not found" (an
    `Array.prototype.find` that returns `undefined`, a `findIndex` that
    returns -1, a regular expression that does not match). */
module Wrappers {

  datatype Option<+T> = None | Some(value: T)

}
