/** Results shared by every module: an optional value, and a call that may stop the program. */
module Results {

  datatype Option<T> = None | Some(value: T)

  /** A call either completes with a value or stops the program (ARIBEIRO_ABORT). */
  datatype Outcome<T> = Done(value: T) | Aborted
}
