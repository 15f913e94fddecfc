/** The C engine answers "nothing" with a NULL pointer; the model uses an Option. */
module Optional {

  datatype Option<+T> = None | Some(value: T)

}
