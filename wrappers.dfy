/** An optional value: an absent DOM element, a missing attribute, a missing error text. */
module Wrappers {

  datatype Option<+T> = None | Some(value: T)
}
