/** The optional value that `Array.prototype.find` returns (`undefined` when nothing matches). */
module Wrappers {
  datatype Option<T> = None | Some(value: T)
}
