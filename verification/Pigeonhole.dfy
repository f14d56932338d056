/**
 Different numbers below n are at most n many.
 */
module Pigeonhole {

  lemma {:induction false} DistinctFits(q: seq<nat>, n: nat)
    requires forall i :: 0 <= i < |q| ==> q[i] < n
    requires forall i, j :: 0 <= i < j < |q| ==> q[i] != q[j]
    ensures |q| <= n
    decreases n
  {
    assert q == [] || q[0] < n;
    if n > 0 && n - 1 in q {
      var k :| 0 <= k < |q| && q[k] == n - 1;
      DistinctFits(q[..k] + q[k + 1..], n - 1);
    } else if n > 0 {
      DistinctFits(q, n - 1);
    }
  }
}
