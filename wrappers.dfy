/** The optional-value datatype used for decoders and fallible steps. */
module Wrappers {

  datatype Option<+T> = None | Some(value: T)
}
