/**
  Python's `max(xs, key=k)` and `min(xs, key=k)` over keys that are pairs
  compared lexicographically, as Python compares tuples. Both builtins scan
  from the left and replace the running pick only on a strict improvement,
  so they return the FIRST extreme element.
*/
module Extremes {

  /** A sort key: a pair of numbers compared lexicographically. */
  datatype Rank = Rank(primary: real, secondary: real)

  /** Python's tuple `<` on two ranks. */
  predicate Below(a: Rank, b: Rank) {
    a.primary < b.primary || (a.primary == b.primary && a.secondary < b.secondary)
  }

  /** `k` is where `max` stops: no key exceeds `ks[k]`, and every key before it is smaller. */
  predicate IsFirstMax(ks: seq<Rank>, k: nat) {
    && k < |ks|
    && (forall j :: 0 <= j < |ks| ==> !Below(ks[k], ks[j]))
    && (forall j :: 0 <= j < k ==> Below(ks[j], ks[k]))
  }

  /** `k` is where `min` stops: no key is below `ks[k]`, and every key before it is larger. */
  predicate IsFirstMin(ks: seq<Rank>, k: nat) {
    && k < |ks|
    && (forall j :: 0 <= j < |ks| ==> !Below(ks[j], ks[k]))
    && (forall j :: 0 <= j < k ==> Below(ks[k], ks[j]))
  }

  /** The index `max` returns: the left-to-right scan with a running best. */
  function FirstMaxIndex(ks: seq<Rank>): (k: nat)
    requires |ks| > 0
    ensures IsFirstMax(ks, k)
    decreases |ks|
  {
    if |ks| == 1 then 0
    else
      var k := FirstMaxIndex(ks[..|ks| - 1]);
      if Below(ks[k], ks[|ks| - 1]) then |ks| - 1 else k
  }

  /** The index `min` returns. */
  function FirstMinIndex(ks: seq<Rank>): (k: nat)
    requires |ks| > 0
    ensures IsFirstMin(ks, k)
    decreases |ks|
  {
    if |ks| == 1 then 0
    else
      var k := FirstMinIndex(ks[..|ks| - 1]);
      if Below(ks[|ks| - 1], ks[k]) then |ks| - 1 else k
  }

  /** At most one index is the first maximum, so `IsFirstMax` pins `max` down. */
  lemma FirstMaxUnique(ks: seq<Rank>, k1: nat, k2: nat)
    requires IsFirstMax(ks, k1) && IsFirstMax(ks, k2)
    ensures k1 == k2
  {
    assert !Below(ks[k1], ks[k2]) && !Below(ks[k2], ks[k1]);
  }

  /** At most one index is the first minimum. */
  lemma FirstMinUnique(ks: seq<Rank>, k1: nat, k2: nat)
    requires IsFirstMin(ks, k1) && IsFirstMin(ks, k2)
    ensures k1 == k2
  {
    assert !Below(ks[k1], ks[k2]) && !Below(ks[k2], ks[k1]);
  }
}
