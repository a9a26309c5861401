/** The optional values of the page: a JavaScript `null` (or an absent
    argument) is `None`, anything else is `Some`. */
module Wrappers {
  datatype Option<+T> = None | Some(value: T)
}
