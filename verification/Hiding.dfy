/**
 Handles on facts that are costly to have around.
 */
module Hiding {
  /** Always true, and so are the others. An invariant written "for every k with Unfold(k)" opens only in proofs that
      mention Unfold, so that its parts stay out of sight of those that merely carry it along. Facts that are not to be
      opened together have different handles. */
  predicate Unfold(k: int) {
    true
  }

  predicate Look(k: int) {
    true
  }

  predicate Glance(k: int) {
    true
  }
}
