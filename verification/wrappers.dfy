/** The optional value used for JavaScript's `undefined` results (Map.get, find). */
module Wrappers {
  datatype Option<+T> = None | Some(value: T)
}
