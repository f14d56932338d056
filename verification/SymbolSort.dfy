/**
 The in-place merge sort of the symbol list: split by two walkers, recursive
 merge, all by relinking the nodes.
 */
module SymbolSort {
  import opened Bytes

  class Symlist {
    const value: nat
    const sym: seq<byte>
    var offset: nat
    var next: Symlist?

    constructor (value: nat, sym: seq<byte>)
      ensures this.value == value && this.sym == sym && next == null
    {
      this.value, this.sym, this.offset, this.next := value, sym, 0, null;
    }
  }

  // ----- What the sort computes

  // On equal addresses the first argument goes first.
  function Merge(xs: seq<Symlist>, ys: seq<Symlist>): seq<Symlist> {
    if xs == [] then ys
    else if ys == [] then xs
    else if xs[0].value <= ys[0].value then [xs[0]] + Merge(xs[1..], ys)
    else [ys[0]] + Merge(xs, ys[1..])
  }

  function Half(n: nat): nat { (n + 1) / 2 }

  function MergeSort(xs: seq<Symlist>): seq<Symlist>
    decreases |xs|
  {
    if |xs| < 2 then xs
    else Merge(MergeSort(xs[..Half(|xs|)]), MergeSort(xs[Half(|xs|)..]))
  }

  predicate Sorted(xs: seq<Symlist>) {
    forall i, j :: 0 <= i < j < |xs| ==> xs[i].value <= xs[j].value
  }

  // The nodes with a given address, in order.
  function Select(xs: seq<Symlist>, v: nat): seq<Symlist> {
    if xs == [] then []
    else if xs[0].value == v then [xs[0]] + Select(xs[1..], v)
    else Select(xs[1..], v)
  }

  lemma {:induction false} MergeMultiset(xs: seq<Symlist>, ys: seq<Symlist>)
    ensures multiset(Merge(xs, ys)) == multiset(xs) + multiset(ys)
  {
    if xs != [] && ys != [] {
      assert xs == [xs[0]] + xs[1..] && ys == [ys[0]] + ys[1..];
      if xs[0].value <= ys[0].value {
        MergeMultiset(xs[1..], ys);
      } else {
        MergeMultiset(xs, ys[1..]);
      }
    }
  }

  lemma InMerge(xs: seq<Symlist>, ys: seq<Symlist>, x: Symlist)
    requires x in Merge(xs, ys)
    ensures x in xs || x in ys
  {
    MergeMultiset(xs, ys);
    assert x in multiset(Merge(xs, ys));
  }

  lemma {:induction false} MergeSorted(xs: seq<Symlist>, ys: seq<Symlist>)
    requires Sorted(xs) && Sorted(ys)
    ensures Sorted(Merge(xs, ys))
  {
    if xs != [] && ys != [] {
      var head, rest;
      if xs[0].value <= ys[0].value {
        head, rest := xs[0], Merge(xs[1..], ys);
        MergeSorted(xs[1..], ys);
        forall x | x in rest ensures head.value <= x.value {
          InMerge(xs[1..], ys, x);
        }
      } else {
        head, rest := ys[0], Merge(xs, ys[1..]);
        MergeSorted(xs, ys[1..]);
        forall x | x in rest ensures head.value <= x.value {
          InMerge(xs, ys[1..], x);
        }
      }
      assert Merge(xs, ys) == [head] + rest;
    }
  }

  lemma {:induction false} SelectNone(xs: seq<Symlist>, v: nat)
    requires forall i :: 0 <= i < |xs| ==> xs[i].value != v
    ensures Select(xs, v) == []
  {
    if xs != [] {
      SelectNone(xs[1..], v);
    }
  }

  lemma {:induction false} SelectConcat(xs: seq<Symlist>, ys: seq<Symlist>, v: nat)
    ensures Select(xs + ys, v) == Select(xs, v) + Select(ys, v)
  {
    if xs == [] {
      assert xs + ys == ys;
    } else {
      assert (xs + ys)[1..] == xs[1..] + ys;
      SelectConcat(xs[1..], ys, v);
    }
  }

  lemma {:induction false} SelectMerge(xs: seq<Symlist>, ys: seq<Symlist>, v: nat)
    requires Sorted(xs) && Sorted(ys)
    ensures Select(Merge(xs, ys), v) == Select(xs, v) + Select(ys, v)
  {
    if xs != [] && ys != [] {
      if xs[0].value <= ys[0].value {
        SelectMerge(xs[1..], ys, v);
        assert Merge(xs, ys)[1..] == Merge(xs[1..], ys);
      } else {
        SelectMerge(xs, ys[1..], v);
        assert Merge(xs, ys)[1..] == Merge(xs, ys[1..]);
        if ys[0].value == v {
          SelectNone(xs, v);
        }
      }
    }
  }

  /** The sort is a stable sort: ordered by address, the same nodes, and nodes of equal address
      in their old order. */
  lemma {:induction false} MergeSortCorrect(xs: seq<Symlist>)
    ensures Sorted(MergeSort(xs)) && multiset(MergeSort(xs)) == multiset(xs)
    ensures forall v :: Select(MergeSort(xs), v) == Select(xs, v)
    decreases |xs|
  {
    if |xs| >= 2 {
      var k := Half(|xs|);
      var a, b := xs[..k], xs[k..];
      MergeSortCorrect(a);
      MergeSortCorrect(b);
      MergeSorted(MergeSort(a), MergeSort(b));
      MergeMultiset(MergeSort(a), MergeSort(b));
      assert xs == a + b;
      forall v ensures Select(MergeSort(xs), v) == Select(xs, v) {
        SelectMerge(MergeSort(a), MergeSort(b), v);
        SelectConcat(a, b, v);
      }
    }
  }

  /** Order and stability leave no choice: there is one stable sort. */
  lemma {:induction false} StableSortUnique(xs: seq<Symlist>, ys: seq<Symlist>)
    requires Sorted(xs) && Sorted(ys) && forall v :: Select(xs, v) == Select(ys, v)
    ensures xs == ys
  {
    if xs != [] {
      assert Select(xs, xs[0].value) == Select(ys, xs[0].value);
    }
    if ys != [] {
      assert Select(xs, ys[0].value) == Select(ys, ys[0].value);
    }
    if xs != [] && ys != [] {
      var a, b := xs[0].value, ys[0].value;
      if a < b {
        SelectNone(ys, a);
      } else if b < a {
        SelectNone(xs, b);
      } else {
        assert xs[0] == Select(xs, a)[0] && ys[0] == Select(ys, a)[0];
        forall v ensures Select(xs[1..], v) == Select(ys[1..], v) {
          assert Select(xs, v) == Select(ys, v);
          if v == a {
            assert Select(xs[1..], v) == Select(xs, v)[1..];
            assert Select(ys[1..], v) == Select(ys, v)[1..];
          }
        }
        StableSortUnique(xs[1..], ys[1..]);
        assert xs == [xs[0]] + xs[1..] && ys == [ys[0]] + ys[1..];
      }
    }
  }

  // ----- The nodes in memory

  predicate Distinct(ns: seq<Symlist>) {
    forall i, j :: 0 <= i < j < |ns| ==> ns[i] != ns[j]
  }

  ghost function Nodes(ns: seq<Symlist>): set<Symlist> { set x | x in ns }

  ghost function After(ns: seq<Symlist>, i: nat): Symlist? { if i + 1 < |ns| then ns[i + 1] else null }

  // Following next from head visits ns and ends.
  ghost predicate Chain(head: Symlist?, ns: seq<Symlist>)
    reads Nodes(ns)
  {
    && Distinct(ns)
    && (head == if ns == [] then null else ns[0])
    && (forall i :: 0 <= i < |ns| ==> ns[i].next == After(ns, i))
  }

  lemma ChainTail(head: Symlist?, ns: seq<Symlist>)
    requires Chain(head, ns) && ns != []
    ensures Chain(ns[0].next, ns[1..]) && ns[0] !in ns[1..]
  {
    var t := ns[1..];
    forall i | 0 <= i < |t| ensures t[i].next == After(t, i) && t[i] != ns[0] {
      assert ns[i + 1].next == After(ns, i + 1);
    }
  }

  // Puts x in front of a list.
  method LinkFront(x: Symlist, rest: Symlist?, ghost ns: seq<Symlist>)
    requires Chain(rest, ns) && x !in ns
    modifies x
    ensures Chain(x, [x] + ns)
  {
    x.next := rest;
    ghost var t := [x] + ns;
    forall i | 0 <= i < |t| ensures t[i].next == After(t, i) {
      if i > 0 {
        assert ns[i - 1] in ns && ns[i - 1].next == After(ns, i - 1);
      }
    }
  }

  // Cuts a list after ns[s].
  method Cut(source: Symlist?, slow: Symlist, ghost ns: seq<Symlist>, ghost s: nat) returns (back: Symlist?)
    requires Chain(source, ns) && s < |ns| && slow == ns[s]
    modifies slow
    ensures Chain(source, ns[..s + 1]) && Chain(back, ns[s + 1..])
  {
    assert ns[s].next == After(ns, s);
    back := slow.next;
    slow.next := null;
    ghost var a, b := ns[..s + 1], ns[s + 1..];
    forall i | 0 <= i < |a| ensures a[i].next == After(a, i) {
      assert i < s ==> ns[i] != slow && ns[i].next == After(ns, i);
    }
    forall i | 0 <= i < |b| ensures b[i].next == After(b, i) {
      assert ns[s + 1 + i] != slow && ns[s + 1 + i].next == After(ns, s + 1 + i);
    }
  }

  // The last node of the first half, found by walkers of speed one and two.
  method FindMiddle(source: Symlist, ghost ns: seq<Symlist>) returns (slow: Symlist)
    requires ns != [] && Chain(source, ns)
    ensures slow == ns[(|ns| + 1) / 2 - 1]
  {
    assert ns[0].next == After(ns, 0);
    slow := source;
    var fast: Symlist? := source.next;
    ghost var s := 0;
    while fast != null
      invariant 0 <= s < |ns| && slow == ns[s]
      invariant fast == null ==> Half(|ns|) == s + 1
      invariant fast != null ==> 2 * s + 1 < |ns| && fast == ns[2 * s + 1]
      decreases |ns| - s, fast != null
    {
      ghost var f := 2 * s + 1;
      assert ns[f].next == After(ns, f);
      fast := fast.next;
      if fast != null {
        assert ns[s].next == After(ns, s) && ns[f + 1].next == After(ns, f + 1);
        slow := slow.next;
        fast := fast.next;
        s := s + 1;
      }
    }
  }

  /** Cuts the list after its first half. */
  method FrontBackSplit(source: Symlist, ghost ns: seq<Symlist>) returns (front: Symlist?, back: Symlist?)
    requires ns != [] && Chain(source, ns)
    modifies Nodes(ns)
    ensures Chain(front, ns[..(|ns| + 1) / 2]) && Chain(back, ns[(|ns| + 1) / 2..])
  {
    var slow := FindMiddle(source, ns);
    front := source;
    back := Cut(source, slow, ns, Half(|ns|) - 1);
  }

  ghost predicate Apart(xs: seq<Symlist>, ys: seq<Symlist>) { Nodes(xs) !! Nodes(ys) }

  /** Relinks two lists into their merge. */
  method SortedMerge(a: Symlist?, b: Symlist?, ghost xs: seq<Symlist>, ghost ys: seq<Symlist>)
    returns (result: Symlist?)
    requires Chain(a, xs) && Chain(b, ys) && Apart(xs, ys)
    modifies Nodes(xs) + Nodes(ys)
    ensures Chain(result, Merge(xs, ys))
    decreases |xs| + |ys|
  {
    if a == null {
      return b;
    } else if b == null {
      return a;
    }
    assert a in Nodes(xs) && b in Nodes(ys);
    if a.value <= b.value {
      ChainTail(a, xs);
      TailNodes(xs);
      result := a;
      var rest := SortedMerge(a.next, b, xs[1..], ys);
      MergeNodes(xs[1..], ys);
      LinkFront(result, rest, Merge(xs[1..], ys));
    } else {
      ChainTail(b, ys);
      TailNodes(ys);
      result := b;
      var rest := SortedMerge(a, b.next, xs, ys[1..]);
      MergeNodes(xs, ys[1..]);
      LinkFront(result, rest, Merge(xs, ys[1..]));
    }
  }

  lemma TailNodes(xs: seq<Symlist>)
    requires xs != []
    ensures Nodes(xs) == Nodes(xs[1..]) + {xs[0]}
  {
    assert xs == [xs[0]] + xs[1..];
  }

  lemma MergeNodes(xs: seq<Symlist>, ys: seq<Symlist>)
    ensures Nodes(Merge(xs, ys)) == Nodes(xs) + Nodes(ys)
    ensures forall x :: x in Merge(xs, ys) ==> x in Nodes(xs) + Nodes(ys)
  {
    MergeMultiset(xs, ys);
    assert multiset(xs + ys) == multiset(xs) + multiset(ys);
    SameNodes(Merge(xs, ys), xs + ys);
  }

  /** The sort relinks the nodes into the order MergeSort gives. */
  method MergeSortSymlist(head: Symlist?, ghost ns: seq<Symlist>) returns (result: Symlist?)
    requires Chain(head, ns)
    modifies Nodes(ns)
    ensures Chain(result, MergeSort(ns))
    decreases |ns|
  {
    if head == null {
      return head;
    }
    assert ns[0].next == After(ns, 0);
    if head.next == null {
      return head;
    }
    ghost var k := Half(|ns|);
    ghost var xs, ys := ns[..k], ns[k..];
    SplitNodes(ns, k);
    SortNodes(xs);
    SortNodes(ys);
    var a, b := FrontBackSplit(head, ns);
    a := MergeSortSymlist(a, xs);
    b := MergeSortSymlist(b, ys);
    result := SortedMerge(a, b, MergeSort(xs), MergeSort(ys));
  }

  lemma SplitNodes(ns: seq<Symlist>, k: nat)
    requires Distinct(ns) && k <= |ns|
    ensures Nodes(ns[..k]) + Nodes(ns[k..]) == Nodes(ns) && Apart(ns[..k], ns[k..])
  {
    assert ns == ns[..k] + ns[k..];
  }

  lemma SameNodes(xs: seq<Symlist>, ys: seq<Symlist>)
    requires multiset(xs) == multiset(ys)
    ensures Nodes(xs) == Nodes(ys)
  {
    forall x ensures x in xs <==> x in ys {
      assert x in multiset(xs) <==> x in multiset(ys);
    }
  }

  lemma SortNodes(ns: seq<Symlist>)
    ensures Nodes(MergeSort(ns)) == Nodes(ns)
  {
    MergeSortCorrect(ns);
    SameNodes(MergeSort(ns), ns);
  }
}
