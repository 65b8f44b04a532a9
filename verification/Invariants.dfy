/** Invariants are passed from contract to contract far more often than they are proved. Wrapped
    in `Whole`, one is handed on as a single fact instead of being taken apart at every call. */
module Invariants {
  ghost predicate Whole(p: bool) {
    p == true
  }
}
