/** The optional value used where the Java code holds a nullable reference. */
module Options {
  datatype Option<+T> = None | Some(value: T)
}
