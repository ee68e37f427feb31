/** The optional value shared by the modules of this project. */
module Wrappers {

  /** A parser's outcome: `Some` of the decoded value, or `None` when decoding
      failed. */
  datatype Option<+T> = None | Some(value: T) {

    /** The decoded value, or the fallback `default` after a failure. */
    function GetOr(default: T): T
    {
      if Some? then value else default
    }
  }
}
