/** The optional value used wherever the Kotlin source has a nullable type (`T?`). */
module Options {

  datatype Option<+T> = None | Some(value: T)

}
