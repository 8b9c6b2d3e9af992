/** The optional value used where the program works with a pointer that may be null. */
module Options {

  datatype Option<+T> = None | Some(value: T)
}
