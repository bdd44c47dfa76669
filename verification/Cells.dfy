/** Bags of array cells: an index that occurs once is owned once. */
module Cells {

  /** The cells a..b-1, once each. */
  function Range(a: nat, b: nat): (m: multiset<nat>)
    ensures |m| == if a < b then b - a else 0
    ensures forall i :: m[i] == if a <= i < b then 1 else 0
  {
    if a >= b then multiset{} else Range(a, b - 1) + multiset{b - 1}
  }

  lemma {:induction false} RangeSplit(a: nat, b: nat, c: nat)
    requires a <= b <= c
    ensures Range(a, c) == Range(a, b) + Range(b, c)
  {
  }

  lemma UnionAssociative(a: multiset<nat>, b: multiset<nat>, c: multiset<nat>)
    ensures a + b + c == a + (b + c)
  {
  }

  lemma UnionRotates(a: multiset<nat>, b: multiset<nat>, c: multiset<nat>)
    ensures a + (b + c) == b + (a + c)
  {
  }
}
