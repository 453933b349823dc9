/** The nullable values of the controller (a missing short URL, a null hash,
    a record that is not found) are modelled with Option. */
module Wrappers {

  datatype Option<+T> = None | Some(value: T)
}
