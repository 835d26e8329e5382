/** The optional value the editor uses where the Java code holds a possibly-null reference. */
module Optional {

  datatype Option<+T> = None | Some(value: T)

}
