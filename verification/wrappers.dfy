/** The optional value used for a field's error message and for a slider that
    the page does not set up. */
module Wrappers {

  datatype Option<+T> = None | Some(value: T)
}
