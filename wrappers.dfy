/** The usual optional-value datatype, used for "the regular expression did not match". */
module Wrappers {

  datatype Option<+T> = None | Some(value: T)

}
