/** The optional value used for Go's nil-able results: a nil map, a nil slice,
    a nil *Secret, or a decoder that produced no bytes. */
module Wrappers {

  datatype Option<+T> = None | Some(value: T)
}
