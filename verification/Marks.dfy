/** Marks at the places where a folded part of an invariant is used. They are always
    true: a predicate folded under a mark says something only where the mark is
    mentioned, and so does not weigh on the other proofs. */
module Marks {

  predicate Inside(n: nat) {
    true
  }

  /** For what is folded inside that, or beside it. */
  predicate Deeper(n: nat) {
    true
  }

  /** For an invariant of several parts, one of them. */
  predicate InPart(part: nat, n: nat) {
    true
  }
}
