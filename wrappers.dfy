/** Option, for the PHP values that may be unset (`isset` false) or `false`. */
module Wrappers {

  datatype Option<+T> = None | Some(value: T)
}
