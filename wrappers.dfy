/** The optional value a query returns when it ends in `.first()`. */
module Wrappers {

  datatype Option<+T> = None | Some(value: T)
}
