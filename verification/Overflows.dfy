/** What to do with a field that is too large or too small. */
module Overflows {
  datatype Overflow = Constrain | Reject

  /** `ConstrainToRange`. */
  function ConstrainToRange(x: int, lo: int, hi: int): int {
    var atLeast := if x < lo then lo else x;
    if hi < atLeast then hi else atLeast
  }
}
