/** Bounded parts of a sequence: the smaller of two lengths, and what lies outside a range. */
module Ranges {

  function Min(a: nat, b: nat): nat {
    if a < b then a else b
  }

  /** before and after agree except possibly at the n places from at on. */
  ghost predicate SameOutside<T>(before: seq<T>, after: seq<T>, at: nat, n: nat) {
    && |before| == |after|
    && forall i | 0 <= i < |before| && !(at <= i < at + n) :: after[i] == before[i]
  }
}
