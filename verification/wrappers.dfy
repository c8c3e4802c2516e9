/** The optional-value datatype used for icons and for the result of a hotkey lookup. */
module Wrappers {

  datatype Option<+T> = None | Some(value: T)
}
