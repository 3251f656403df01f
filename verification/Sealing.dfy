/** A fact stated as `forall k: nat :: Opens(k) ==> P` is sealed: the solver uses `P` only after a proof
    has mentioned `Opens`. The models seal large invariants this way to keep proofs small. */
module Sealing {

  predicate Opens(k: nat) {
    true
  }
}
