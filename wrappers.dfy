/** The optional value used for absent metadata and failed encoder runs. */
module Wrappers {
  datatype Option<+T> = None | Some(value: T)
}
