/** An optional value, used where the source raises an exception or has no answer. */
module Wrappers {

  datatype Option<+T> = None | Some(value: T)

}
