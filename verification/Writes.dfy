/** What can become of a write to the database or the disk. */
module Writes {

  /** A write can succeed, fail, or take effect and still report an error. */
  datatype Write = Done | Refused | DoneWithError

  predicate Reports(w: Write) { !w.Done? }

  predicate Lands(w: Write) { !w.Refused? }
}
