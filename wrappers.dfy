/** The optional value that the model uses where the program catches a ValueError. */
module Wrappers {

  datatype Option<+T> = None | Some(value: T)

}
