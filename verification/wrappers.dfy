/** The optional value returned by lookups that may find nothing
    (JavaScript's `undefined` result of `Map.prototype.get`). */
module Wrappers {

  datatype Option<+T> = None | Some(value: T)

}
