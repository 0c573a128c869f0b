/** The optional result the modelled functions share. */
module Wrappers {
  datatype Option<+T> = None | Some(value: T)
}
