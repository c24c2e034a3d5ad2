/** Option: `None` plays the part of JavaScript's `null` result of a failed parse. */
module Wrappers {

  datatype Option<+T> = None | Some(value: T)
}
