/** Java's nullable references and java.util.Optional, as a value. */
module Common {

  datatype Option<+T> = None | Some(value: T)

}
