/** The optional value used where the script would raise or has nothing to return. */
module Wrappers {

  datatype Option<+T> = None | Some(value: T)
}
