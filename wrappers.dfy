/** Result shapes for operations that can fail. */
module Wrappers {

  datatype Option<T> = None | Some(value: T)

  /** Success without a value, or a failure carrying an error message. */
  datatype Outcome<E> = Pass | Fail(error: E)
}
