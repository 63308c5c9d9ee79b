/** The optional value used where the source returns a nullable pointer. */
module Options {

  datatype Option<+T> = None | Some(value: T)
}
