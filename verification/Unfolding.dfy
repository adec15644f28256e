/** A predicate stated for all `n` with `Marker(x, n)`, where `x` is the state it is about, is
    unfolded by the verifier only in proofs that mention the marker; a lemma beside it says that
    it holds exactly if its body does. */
module Unfolding {

  // Always true.
  ghost predicate Marker<T>(state: T, n: nat) {
    true
  }
}
