/** Definitions that several components share. */
module Basics {

  datatype Option<+T> = None | Some(value: T)

  const PAGE_SIZE: nat := 4096

  function Least(a: nat, b: nat): nat {
    if a < b then a else b
  }

  /** No number occurs twice. */
  ghost predicate Distinct(q: seq<nat>) {
    forall i, j :: 0 <= i < j < |q| ==> q[i] != q[j]
  }

  /** Names one look inside an invariant or predicate. A quantifier over it around a body only keeps
      that body out of proofs that pass the predicate on; `assert Look(0)` opens it. */
  predicate Look(k: nat) {
    k >= 0
  }

  /** The same for predicates that are opened apart from the others. */
  predicate Peek(k: nat) {
    k >= 0
  }
}
