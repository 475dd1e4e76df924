/** The usual Option datatype, for values the JavaScript code may find absent
    (`undefined`) or unparsable. */
module Wrappers {

  datatype Option<+T> = None | Some(value: T)
}
