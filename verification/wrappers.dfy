/** The optional value the model uses wherever the source may see `undefined`. */
module Wrappers {

  /** A lookup result: `None` plays the part of JavaScript's `undefined`. */
  datatype Option<+T> = None | Some(value: T)
}
