/** Small predicates about sequences shared by the other modules. */
module Sequences {

  /** No element occurs twice. */
  predicate NoDuplicates<T(==)>(s: seq<T>)
  {
    forall i, j :: 0 <= i < j < |s| ==> s[i] != s[j]
  }

  /** `positions` picks, in strictly increasing order, the places of `s`
      whose elements make up `sub`: `sub` is `s` with some elements left out. */
  ghost predicate SelectsSubsequence<T>(sub: seq<T>, s: seq<T>, positions: seq<nat>)
  {
    && |positions| == |sub|
    && (forall i :: 0 <= i < |positions| ==> positions[i] < |s| && s[positions[i]] == sub[i])
    && (forall i, j :: 0 <= i < j < |positions| ==> positions[i] < positions[j])
  }
}
