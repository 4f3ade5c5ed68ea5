/** Optional values and pass/fail outcomes shared by the sender model. */
module Results {

  /** A value that may be absent; `None` also stands for a falsy JavaScript argument. */
  datatype Option<+T> = None | Some(value: T)

  /** The outcome of an operation that either succeeds or throws with a message. */
  datatype Outcome<+E> = Pass | Fail(error: E)
}
