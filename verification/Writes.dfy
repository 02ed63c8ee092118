/** How one database write goes, as far as a caller can tell. */
module Writes {

  /** It works, fails without effect, or takes effect and then reports a failure. */
  datatype Fate = Works | FailsBefore | FailsAfter
}
