/** Small shared vocabulary for both versions of the supervisor. */
module Common {

  /** A value that may be absent: a process exit code is absent when the
      child was terminated by a signal. */
  datatype Option<+T> = None | Some(value: T)

}
