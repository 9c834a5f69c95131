/** The supported stretch of the time line, in nanoseconds from 1 January 1970. */
module Instants {
  const DAY: int := 86_400_000_000_000
  const MIN_EPOCH_NS: int := -8_640_000_000_000_000_000_000
  const MAX_EPOCH_NS: int := 8_640_000_000_000_000_000_000

  /** `GetUTCEpochNanoseconds` gives a number (and not null) exactly within these bounds. */
  predicate InstantInRange(ns: int) {
    MIN_EPOCH_NS <= ns <= MAX_EPOCH_NS
  }
}
