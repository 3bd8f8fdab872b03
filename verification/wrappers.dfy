/** The optional-value datatype used wherever a regular expression may fail to match
    or a JavaScript value may be `undefined`. */
module Wrappers {

  datatype Option<+T> = None | Some(value: T)

}
