/** Failure-carrying wrappers shared by the memory-map reader and the patch-object store. */
module Common {

  /** An optional value, used where the source returns a possibly-null pointer. */
  datatype Option<+T> = None | Some(value: T)

  /** A value or the reason there is none, used where the source returns -1 on failure. */
  datatype Result<+R, +E> = Success(value: R) | Failure(error: E)
}
