/** The optional values of the model: a JavaScript `undefined` / `null` is `None`. */
module Wrappers {
  datatype Option<+T> = None | Some(value: T)
}
