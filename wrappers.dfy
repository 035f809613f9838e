/** The optional value the JavaScript code signals with `null`. */
module Wrappers {

  datatype Option<+T> = None | Some(value: T)
}
