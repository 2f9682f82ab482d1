/** The optional-value datatype used by the parsers and decoders of the model. */
module Wrappers {

  datatype Option<+T> = None | Some(value: T)

}
