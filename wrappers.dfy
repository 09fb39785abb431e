/** The optional value the source expresses as "a string or None". */
module Wrappers {

  datatype Option<+T> = None | Some(value: T)

}
