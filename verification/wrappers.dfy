/** The optional value used for fallible parses: a profile name either parses
    to a profile (`Some`) or is not recognised (`None`). */
module Wrappers {

  datatype Option<+T> = None | Some(value: T)

}
