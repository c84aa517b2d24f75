/** Go's `error` results: a nil error is `None`, a non-nil one is `Some(e)`. */
module Outcomes {

  /** The conventional optional value; used for a possibly-nil Go error. */
  datatype Option<+T> = None | Some(value: T)

  /** A Go `error` value. The engine never inspects an error, it only
      forwards it or drops it, so its text is all that is observable. */
  datatype Error = Error(text: string)
}
