/** An optional value: the result of a decoder that may reject its input. */
module Wrappers {

  datatype Option<+T> = None | Some(value: T)
}
