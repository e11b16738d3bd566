/** The optional-value datatype used throughout the model: a header that may be
    absent, a JSON body that may fail to parse, a date that may not parse. */
module Wrappers {

  datatype Option<+T> = None | Some(value: T)
}
