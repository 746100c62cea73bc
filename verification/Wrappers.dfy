/** Results that may be missing, and what a parser can come to. */
module Wrappers {
  datatype Option<+T> = None | Some(value: T)

  /** A parser rejects its text, runs past the end of it, or parses something. */
  datatype Outcome<+T> = Rejected | Overrun | Parsed(value: T) {
    /** The same failure of a larger parse. */
    function Failure<U>(): Outcome<U>
      requires !Parsed?
    {
      if Overrun? then Overrun else Rejected
    }
  }
}
