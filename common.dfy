/** Shared option type for operations that may have no answer. */
module Common {

  datatype Option<T> = None | Some(value: T)

}
