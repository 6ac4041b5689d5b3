/** The optional-value datatype used for "no match" and "shortening failed". */
module Wrappers {

  datatype Option<+T> = None | Some(value: T)
}
