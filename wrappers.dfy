/** The optional value used where the Java code has a reference that may be null. */
module Wrappers {

  datatype Option<+T> = None | Some(value: T)
}
