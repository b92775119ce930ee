/** The optional value used for Go's nil-able callbacks and pointers. */
module Optional {

  datatype Option<+T> = None | Some(value: T)
}
