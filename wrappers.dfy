/** The optional value used throughout the model (a C out-parameter that may not be written,
    a packet argument that may be NULL). */
module Wrappers {

  datatype Option<+T> = None | Some(value: T)

}
