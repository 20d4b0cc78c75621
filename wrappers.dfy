/** The optional value used where the application reads a field that may be
    missing (`null`, `undefined`) or returns `null` from a fold. */
module Wrappers {

  datatype Option<+T> = None | Some(value: T)

}
