/** The optional value returned where the source returns a possibly-null reference. */
module Options {

  datatype Option<+T> = None | Some(value: T)
}
