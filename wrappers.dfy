/** The optional value used throughout the model: a missing transmittance
    texture, a failed map lookup, a filename pattern that did not match. */
module Wrappers {

  datatype Option<+T> = None | Some(value: T)
}
