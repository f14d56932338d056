/**
 Keeping the chosen elements of a sequence, in order.
 */
module Selection {

  function Filter<T>(xs: seq<T>, chosen: T -> bool): seq<T> {
    if xs == [] then []
    else
      var front := Filter(xs[..|xs| - 1], chosen);
      if chosen(xs[|xs| - 1]) then front + [xs[|xs| - 1]] else front
  }

  lemma FilterStep<T>(xs: seq<T>, i: nat, chosen: T -> bool)
    requires i < |xs|
    ensures chosen(xs[i]) ==> Filter(xs[..i + 1], chosen) == Filter(xs[..i], chosen) + [xs[i]]
    ensures !chosen(xs[i]) ==> Filter(xs[..i + 1], chosen) == Filter(xs[..i], chosen)
  {
    assert xs[..i + 1][..i] == xs[..i];
  }

  // kept consists of the elements of xs at the places idx, which are exactly the chosen ones in order.
  ghost predicate Picks<T>(idx: seq<nat>, kept: seq<T>, xs: seq<T>, chosen: T -> bool) {
    && |idx| == |kept|
    && (forall i :: 0 <= i < |idx| ==> idx[i] < |xs| && kept[i] == xs[idx[i]])
    && (forall i, j :: 0 <= i < j < |idx| ==> idx[i] < idx[j])
    && (forall j :: 0 <= j < |xs| ==> (chosen(xs[j]) <==> j in idx))
  }

  lemma PicksChosen<T>(idx: seq<nat>, kept: seq<T>, xs: seq<T>, xs': seq<T>, chosen: T -> bool)
    requires Picks(idx, kept, xs, chosen) && |xs'| == |xs| + 1 && xs == xs'[..|xs|] && chosen(xs'[|xs|])
    ensures Picks(idx + [|xs|], kept + [xs'[|xs|]], xs', chosen)
  {
    var idx' := idx + [|xs|];
    forall j | 0 <= j < |xs'| ensures chosen(xs'[j]) <==> j in idx' {
      assert j in idx' <==> j in idx || j == |xs|;
    }
  }

  lemma PicksPassed<T>(idx: seq<nat>, kept: seq<T>, xs: seq<T>, xs': seq<T>, chosen: T -> bool)
    requires Picks(idx, kept, xs, chosen) && |xs'| == |xs| + 1 && xs == xs'[..|xs|] && !chosen(xs'[|xs|])
    ensures Picks(idx, kept, xs', chosen)
  {
    assert |xs| !in idx;
  }

  lemma {:induction false} PrefixPicks<T>(xs: seq<T>, n: nat, chosen: T -> bool) returns (idx: seq<nat>)
    requires n <= |xs|
    ensures Picks(idx, Filter(xs[..n], chosen), xs[..n], chosen)
  {
    if n == 0 {
      idx := [];
    } else {
      var front, whole := xs[..n - 1], xs[..n];
      idx := PrefixPicks(xs, n - 1, chosen);
      FilterStep(xs, n - 1, chosen);
      assert front == whole[..n - 1];
      if chosen(xs[n - 1]) {
        PicksChosen(idx, Filter(front, chosen), front, whole, chosen);
        idx := idx + [n - 1];
      } else {
        PicksPassed(idx, Filter(front, chosen), front, whole, chosen);
      }
    }
  }

  /** What is kept are exactly the chosen elements, each at its place once, in order. */
  lemma FilterIs<T>(xs: seq<T>, chosen: T -> bool) returns (idx: seq<nat>)
    ensures Picks(idx, Filter(xs, chosen), xs, chosen)
  {
    idx := PrefixPicks(xs, |xs|, chosen);
    assert xs[..|xs|] == xs;
  }
}
