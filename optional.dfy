/** A value that may be absent: the model's rendering of a nullable pointer. */
module Optional {

  datatype Option<+T> = None | Some(value: T)
}
