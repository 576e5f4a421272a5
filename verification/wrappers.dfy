/** `Option` models Java's nullable references and `java.util.Optional`;
    `Result` models a value or a thrown exception. */
module Wrappers {

  datatype Option<+T> = None | Some(value: T)

  datatype Result<+R, +E> = Success(value: R) | Failure(error: E)
}
