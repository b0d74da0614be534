/** Stock optional value, for Java's nullable references and results. */
module Wrappers {
  datatype Option<T> = None | Some(value: T)
}
