/** An optional value: a found index, or the bytes stored under a name. */
module Wrappers {

  datatype Option<+T> = None | Some(value: T)
}
