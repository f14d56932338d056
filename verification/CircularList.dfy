/**
 Intrusive circular lists: rings of nodes linked both ways through a head.
 A family of disjoint lists is a map from each head to the sequence of its
 entries; every operation on the links is an operation on that map.
 */
module CircularList {

  // A link is a node or one of the two poison values a deleted entry gets.
  datatype Ptr = To(node: ListHead) | Poison1 | Poison2

  class ListHead {
    var next: Ptr
    var prev: Ptr

    constructor ()
      ensures next == Poison1 && prev == Poison2
    {
      next, prev := Poison1, Poison2;
    }
  }

  // ----- Rings

  function Succ(ns: seq<ListHead>, i: nat): ListHead
    requires i < |ns|
  {
    if i + 1 < |ns| then ns[i + 1] else ns[0]
  }

  predicate Distinct(ns: seq<ListHead>) {
    forall i, j :: 0 <= i < j < |ns| ==> ns[i] != ns[j]
  }

  // Every node is linked to its successor, and back, around the ring.
  ghost predicate Linked(ns: seq<ListHead>)
    reads ns
  {
    && ns != [] && Distinct(ns)
    && (forall i :: 0 <= i < |ns| ==> ns[i].next == To(Succ(ns, i)))
    && (forall i :: 0 <= i < |ns| ==> Succ(ns, i).prev == To(ns[i]))
  }

  function Insert(ns: seq<ListHead>, k: nat, x: ListHead): seq<ListHead>
    requires k < |ns|
  {
    ns[..k + 1] + [x] + ns[k + 1..]
  }

  function RemoveAt(ns: seq<ListHead>, k: nat): seq<ListHead>
    requires k < |ns|
  {
    ns[..k] + ns[k + 1..]
  }

  // Who follows whom after an insertion.
  lemma InsertSucc(ns: seq<ListHead>, k: nat, x: ListHead, i: nat)
    requires k < |ns| && i <= |ns|
    ensures var ns' := Insert(ns, k, x);
      if i < k then ns'[i] == ns[i] && Succ(ns', i) == Succ(ns, i)
      else if i == k then ns'[i] == ns[k] && Succ(ns', i) == x
      else if i == k + 1 then ns'[i] == x && Succ(ns', i) == Succ(ns, k)
      else ns'[i] == ns[i - 1] && Succ(ns', i) == Succ(ns, i - 1)
  {
  }

  // ... and after a removal.
  lemma RemoveSucc(ns: seq<ListHead>, k: nat, i: nat)
    requires 0 < k < |ns| && i + 1 < |ns|
    ensures var ns' := RemoveAt(ns, k);
      if i < k - 1 then ns'[i] == ns[i] && Succ(ns', i) == Succ(ns, i)
      else if i == k - 1 then ns'[i] == ns[i] && Succ(ns', i) == Succ(ns, k)
      else ns'[i] == ns[i + 1] && Succ(ns', i) == Succ(ns, i + 1)
  {
  }

  // Successors of different nodes differ.
  lemma SuccInjective(ns: seq<ListHead>, i: nat, j: nat)
    requires Distinct(ns) && i < |ns| && j < |ns| && i != j
    ensures Succ(ns, i) != Succ(ns, j)
  {
  }

  // __list_add: nelm goes between ns[k] and its successor.
  method AddBetween(nelm: ListHead, prev: ListHead, next: ListHead, ghost ns: seq<ListHead>, ghost k: nat)
    requires Linked(ns) && k < |ns| && prev == ns[k] && next == Succ(ns, k) && nelm !in ns
    modifies nelm, prev, next
    ensures Linked(Insert(ns, k, nelm))
    ensures prev.next == To(nelm) && nelm.next == To(next) && next.prev == To(nelm) && nelm.prev == To(prev)
  {
    next.prev := To(nelm);
    nelm.next := To(next);
    nelm.prev := To(prev);
    prev.next := To(nelm);
    ghost var ns' := Insert(ns, k, nelm);
    forall i | 0 <= i < |ns'| ensures ns'[i].next == To(Succ(ns', i)) && Succ(ns', i).prev == To(ns'[i]) {
      InsertSucc(ns, k, nelm, i);
      ghost var j := if i <= k then i else i - 1;
      if j != k {
        SuccInjective(ns, j, k);
      }
    }
  }

  // __list_del: the neighbours of ns[k] are linked past it.
  method DelBetween(prev: ListHead, next: ListHead, ghost ns: seq<ListHead>, ghost k: nat)
    requires Linked(ns) && 0 < k < |ns| && prev == ns[k - 1] && next == Succ(ns, k)
    modifies prev, next
    ensures Linked(RemoveAt(ns, k))
    ensures prev.next == To(next) && next.prev == To(prev)
    ensures next != prev ==> next.next == old(next.next) && prev.prev == old(prev.prev)
    ensures ns[k].next == old(ns[k].next) && ns[k].prev == old(ns[k].prev)
  {
    next.prev := To(prev);
    prev.next := To(next);
    ghost var ns' := RemoveAt(ns, k);
    forall i | 0 <= i < |ns'| ensures ns'[i].next == To(Succ(ns', i)) && Succ(ns', i).prev == To(ns'[i]) {
      RemoveSucc(ns, k, i);
      ghost var j := if i < k then i else i + 1;
      SuccInjective(ns, j, k);
    }
  }

  // ----- Families of disjoint lists

  type Lists = map<ListHead, seq<ListHead>>

  function Ring(lists: Lists, h: ListHead): seq<ListHead>
    requires h in lists
  {
    [h] + lists[h]
  }

  ghost function NodesOf(lists: Lists): (ns: set<ListHead>)
    ensures forall h, x :: h in lists && x in Ring(lists, h) ==> x in ns
  {
    set h, x | h in lists && x in Ring(lists, h) :: x
  }

  ghost predicate Disjoint(ns: seq<ListHead>, ms: seq<ListHead>) {
    forall x :: x in ns ==> x !in ms
  }

  ghost predicate Spread(lists: Lists) {
    forall h, g :: h in lists && g in lists && h != g ==> Disjoint(Ring(lists, h), Ring(lists, g))
  }

  ghost predicate Family(lists: Lists)
    reads NodesOf(lists)
  {
    Spread(lists) && forall h :: h in lists ==> Linked(Ring(lists, h))
  }

  // xs without its first x.
  function Without(xs: seq<ListHead>, x: ListHead): seq<ListHead> {
    if xs == [] then [] else if xs[0] == x then xs[1..] else [xs[0]] + Without(xs[1..], x)
  }

  lemma {:induction false} WithoutAt(xs: seq<ListHead>, k: nat)
    requires k < |xs| && Distinct(xs)
    ensures Without(xs, xs[k]) == xs[..k] + xs[k + 1..]
  {
    if k > 0 {
      var rest := xs[1..];
      assert xs[0] != xs[k] && rest[k - 1] == xs[k];
      WithoutAt(rest, k - 1);
      assert [xs[0]] + rest[..k - 1] == xs[..k] && rest[k..] == xs[k + 1..];
      assert [xs[0]] + (rest[..k - 1] + rest[k..]) == xs[..k] + xs[k + 1..];
    }
  }

  lemma {:induction false} WithoutAbsent(xs: seq<ListHead>, x: ListHead)
    requires x !in xs
    ensures Without(xs, x) == xs
  {
    if xs != [] {
      WithoutAbsent(xs[1..], x);
    }
  }

  // Where x sits in the ring of h.
  lemma Position(lists: Lists, h: ListHead, x: ListHead) returns (k: nat)
    requires h in lists && x in lists[h] && Distinct(Ring(lists, h))
    ensures 0 < k < |Ring(lists, h)| && Ring(lists, h)[k] == x
    ensures RemoveAt(Ring(lists, h), k) == [h] + Without(lists[h], x)
    ensures x !in Without(lists[h], x) && x != h
  {
    var xs := lists[h];
    var i :| 0 <= i < |xs| && xs[i] == x;
    k := i + 1;
    var ring := Ring(lists, h);
    forall a, b | 0 <= a < b < |xs| ensures xs[a] != xs[b] {
      assert ring[a + 1] == xs[a] && ring[b + 1] == xs[b];
    }
    WithoutAt(xs, i);
    assert ring[..k] == [h] + xs[..i] && ring[k + 1..] == xs[i + 1..];
    assert ring[0] == h && ring[k] == x;
  }

  // ----- Keeping a family disjoint

  // The entries of h may be rearranged, dropped, or joined by nodes from outside the family.
  lemma SpreadUpdate(lists: Lists, h: ListHead, xs: seq<ListHead>)
    requires Spread(lists) && h in lists
    requires forall x :: x in xs ==> x in lists[h] || x !in NodesOf(lists)
    ensures Spread(lists[h := xs])
  {
    var lists' := lists[h := xs];
    forall a, b | a in lists' && b in lists' && a != b ensures Disjoint(Ring(lists', a), Ring(lists', b)) {
      assert Disjoint(Ring(lists, a), Ring(lists, b)) && Disjoint(Ring(lists, b), Ring(lists, a));
      assert a != h ==> Ring(lists', a) == Ring(lists, a);
      assert b != h ==> Ring(lists', b) == Ring(lists, b);
    }
  }

  lemma SpreadNew(lists: Lists, n: ListHead)
    requires Spread(lists) && n !in NodesOf(lists)
    ensures n !in lists && Spread(lists[n := []])
  {
    forall h | h in lists ensures h in NodesOf(lists) {
      assert h in Ring(lists, h);
    }
    var lists' := lists[n := []];
    assert Ring(lists', n) == [n];
    forall a, b | a in lists' && b in lists' && a != b ensures Disjoint(Ring(lists', a), Ring(lists', b)) {
      assert a != n ==> Ring(lists', a) == Ring(lists, a) && n !in Ring(lists, a);
      assert b != n ==> Ring(lists', b) == Ring(lists, b) && n !in Ring(lists, b);
    }
  }

  // All entries of l move to the front of h.
  lemma SpreadSplice(lists: Lists, l: ListHead, h: ListHead)
    requires Spread(lists) && l in lists && h in lists && l != h && l !in lists[l]
    ensures Spread(lists[h := lists[l] + lists[h]][l := []])
    ensures Spread((lists - {l})[h := lists[l] + lists[h]])
  {
    var lists', lists'' := lists[h := lists[l] + lists[h]][l := []], (lists - {l})[h := lists[l] + lists[h]];
    forall a, b | a in lists' && b in lists' && a != b ensures Disjoint(Ring(lists', a), Ring(lists', b)) {
      SpliceApart(lists, l, h, a, b);
    }
    forall a, b | a in lists'' && b in lists'' && a != b ensures Disjoint(Ring(lists'', a), Ring(lists'', b)) {
      SpliceApart(lists, l, h, a, b);
    }
  }

  lemma SpliceApart(lists: Lists, l: ListHead, h: ListHead, a: ListHead, b: ListHead)
    requires Spread(lists) && l in lists && h in lists && l != h && l !in lists[l] && a in lists && b in lists && a != b
    ensures var lists' := lists[h := lists[l] + lists[h]][l := []]; Disjoint(Ring(lists', a), Ring(lists', b))
  {
    var lists' := lists[h := lists[l] + lists[h]][l := []];
    assert Disjoint(Ring(lists, a), Ring(lists, b)) && Disjoint(Ring(lists, b), Ring(lists, a));
    assert Disjoint(Ring(lists, l), Ring(lists, h)) && Disjoint(Ring(lists, h), Ring(lists, l));
    assert Disjoint(Ring(lists, l), Ring(lists, a)) || a == l;
    assert Disjoint(Ring(lists, l), Ring(lists, b)) || b == l;
    forall x | x in Ring(lists', a) && x in Ring(lists', b) ensures false {
      SplicedFrom(lists, l, h, a, x);
      SplicedFrom(lists, l, h, b, x);
    }
  }

  // A node of a spliced ring comes from that ring or is an entry of l.
  lemma SplicedFrom(lists: Lists, l: ListHead, h: ListHead, a: ListHead, x: ListHead)
    requires l in lists && h in lists && l != h && a in lists
    requires x in Ring(lists[h := lists[l] + lists[h]][l := []], a)
    ensures x in Ring(lists, a) || (a == h && x in lists[l])
    ensures a == l ==> x == l
  {
  }

  // ----- The operations

  // A ring none of whose nodes has changed is still a ring.
  twostate lemma RingKept(ns: seq<ListHead>)
    requires old(Linked(ns)) && forall x :: x in ns ==> x.next == old(x.next) && x.prev == old(x.prev)
    ensures Linked(ns)
  {
  }

  /** INIT_LIST_HEAD: a node of its own becomes the head of an empty list. */
  method InitListHead(list: ListHead, ghost lists: Lists)
    requires Family(lists) && list !in NodesOf(lists)
    modifies list
    ensures Family(lists[list := []]) && list.next == To(list) && list.prev == To(list)
  {
    list.next := To(list);
    list.prev := To(list);
    SpreadNew(lists, list);
    ghost var lists' := lists[list := []];
    forall h | h in lists' ensures Linked(Ring(lists', h)) {
      if h == list {
        assert Ring(lists', h) == [list];
      } else {
        assert Ring(lists', h) == Ring(lists, h) && list !in Ring(lists, h);
      }
    }
  }

  lemma AddFront(lists: Lists, head: ListHead, x: ListHead)
    requires Spread(lists) && head in lists && x !in NodesOf(lists)
    ensures x !in Ring(lists, head) && Spread(lists[head := [x] + lists[head]])
    ensures Insert(Ring(lists, head), 0, x) == [head] + ([x] + lists[head])
  {
    SpreadUpdate(lists, head, [x] + lists[head]);
  }

  lemma AddBack(lists: Lists, head: ListHead, x: ListHead)
    requires Spread(lists) && head in lists && x !in NodesOf(lists)
    ensures x !in Ring(lists, head) && Spread(lists[head := lists[head] + [x]])
    ensures Insert(Ring(lists, head), |lists[head]|, x) == [head] + (lists[head] + [x])
  {
    SpreadUpdate(lists, head, lists[head] + [x]);
  }

  /** list_add: nelm becomes the first entry of head. */
  method ListAdd(nelm: ListHead, head: ListHead, ghost lists: Lists)
    requires Family(lists) && head in lists && nelm !in NodesOf(lists)
    modifies nelm, Ring(lists, head)
    ensures Family(lists[head := [nelm] + lists[head]])
    ensures head.next == To(nelm) && nelm.next == old(head.next) && nelm.prev == To(head)
  {
    ghost var ring := Ring(lists, head);
    AddFront(lists, head, nelm);
    assert Linked(ring) && ring[0].next == To(Succ(ring, 0));
    AddBetween(nelm, head, head.next.node, ring, 0);
    ghost var xs := [nelm] + lists[head];
    ghost var lists' := lists[head := xs];
    forall h | h in lists' ensures Linked(Ring(lists', h)) {
      if h != head {
        assert Ring(lists', h) == Ring(lists, h) && Disjoint(Ring(lists, h), ring);
        RingKept(Ring(lists, h));
      }
    }
  }

  /** list_add_tail: nelm becomes the last entry of head. */
  method ListAddTail(nelm: ListHead, head: ListHead, ghost lists: Lists)
    requires Family(lists) && head in lists && nelm !in NodesOf(lists)
    modifies nelm, Ring(lists, head)
    ensures Family(lists[head := lists[head] + [nelm]])
    ensures head.prev == To(nelm) && nelm.prev == old(head.prev) && nelm.next == To(head)
  {
    ghost var ring := Ring(lists, head);
    ghost var k := |lists[head]|;
    AddBack(lists, head, nelm);
    assert Linked(ring) && Succ(ring, k) == head;
    AddBetween(nelm, head.prev.node, head, ring, k);
    ghost var xs := lists[head] + [nelm];
    ghost var lists' := lists[head := xs];
    forall h | h in lists' ensures Linked(Ring(lists', h)) {
      if h != head {
        assert Ring(lists', h) == Ring(lists, h) && Disjoint(Ring(lists, h), ring);
        RingKept(Ring(lists, h));
      }
    }
  }

  // A head points at an entry only from the two ends of its own ring.
  lemma PointsAt(lists: Lists, owner: ListHead, k: nat, h: ListHead)
    requires Family(lists) && owner in lists && h in lists && 0 < k < |Ring(lists, owner)|
    ensures var ring := Ring(lists, owner);
      && (h.next == To(ring[k]) <==> h == owner && k == 1)
      && (h.prev == To(ring[k]) <==> h == owner && k + 1 == |ring|)
      && (h != owner ==> h !in ring)
  {
    var ring, rh := Ring(lists, owner), Ring(lists, h);
    assert Linked(ring) && Linked(rh) && rh[0] == h;
    assert h.next == To(Succ(rh, 0)) && Succ(rh, |rh| - 1) == h && h.prev == To(rh[|rh| - 1]);
    if h != owner {
      assert Disjoint(rh, ring) && Succ(rh, 0) in rh && rh[|rh| - 1] in rh && h in rh && ring[k] in ring;
    }
  }

  // The unlinking shared by deletion and moving; owner is the list that holds entry.
  method Unlink(entry: ListHead, ghost lists: Lists, ghost owner: ListHead)
    requires Family(lists) && owner in lists && entry in lists[owner]
    modifies Ring(lists, owner)
    ensures Family(lists[owner := Without(lists[owner], entry)])
    ensures entry !in NodesOf(lists[owner := Without(lists[owner], entry)])
    ensures entry.next == old(entry.next) && entry.prev == old(entry.prev) && entry.next.To? && entry.prev.To?
    ensures entry.prev.node != entry && entry.next.node != entry
    ensures entry.prev.node.next == entry.next && entry.next.node.prev == entry.prev
    ensures forall h :: h in lists ==>
      && h.next == (if old(h.next) == To(entry) then old(entry.next) else old(h.next))
      && h.prev == (if old(h.prev) == To(entry) then old(entry.prev) else old(h.prev))
  {
    ghost var ring := Ring(lists, owner);
    assert Linked(ring);
    ghost var k := Position(lists, owner, entry);
    assert entry.next == To(Succ(ring, k)) && Succ(ring, k - 1) == entry && entry.prev == To(ring[k - 1]);
    forall h | h in lists
      ensures h.next == To(entry) <==> h == owner && k == 1
      ensures h.prev == To(entry) <==> h == owner && k + 1 == |ring|
      ensures h != owner ==> h !in ring
    {
      PointsAt(lists, owner, k, h);
    }
    DelBetween(entry.prev.node, entry.next.node, ring, k);
    ghost var xs := Without(lists[owner], entry);
    ghost var lists' := lists[owner := xs];
    assert RemoveAt(ring, k) == Ring(lists', owner);
    forall x | x in xs ensures x in lists[owner] {
      assert x in RemoveAt(ring, k)[1..];
    }
    SpreadUpdate(lists, owner, xs);
    forall h | h in lists' ensures Linked(Ring(lists', h)) && entry !in Ring(lists', h) {
      if h != owner {
        assert Ring(lists', h) == Ring(lists, h) && Disjoint(Ring(lists, h), ring) && Disjoint(ring, Ring(lists, h));
        RingKept(Ring(lists, h));
      }
    }
  }

  method Poison(entry: ListHead, ghost lists: Lists)
    requires Family(lists) && entry !in NodesOf(lists)
    modifies entry
    ensures Family(lists) && entry.next == Poison1 && entry.prev == Poison2
  {
    entry.next := Poison1;
    entry.prev := Poison2;
    forall h | h in lists ensures Linked(Ring(lists, h)) {
      RingKept(Ring(lists, h));
    }
  }

  /** list_del: the entry leaves its list and is poisoned. */
  method ListDel(entry: ListHead, ghost lists: Lists, ghost owner: ListHead)
    requires Family(lists) && owner in lists && entry in lists[owner]
    modifies Ring(lists, owner)
    ensures Family(lists[owner := Without(lists[owner], entry)])
    ensures entry.next == Poison1 && entry.prev == Poison2
    ensures old(entry.prev).To? && old(entry.next).To?
    ensures old(entry.prev).node.next == old(entry.next) && old(entry.next).node.prev == old(entry.prev)
  {
    assert entry in Ring(lists, owner);
    Unlink(entry, lists, owner);
    Poison(entry, lists[owner := Without(lists[owner], entry)]);
  }

  /** list_del_init: the entry leaves its list and becomes an empty list of its own. */
  method ListDelInit(entry: ListHead, ghost lists: Lists, ghost owner: ListHead)
    requires Family(lists) && owner in lists && entry in lists[owner]
    modifies Ring(lists, owner)
    ensures Family(lists[owner := Without(lists[owner], entry)][entry := []])
    ensures entry.next == To(entry) && entry.prev == To(entry) && old(entry.prev).To? && old(entry.next).To?
    ensures old(entry.prev).node.next == old(entry.next) && old(entry.next).node.prev == old(entry.prev)
  {
    assert entry in Ring(lists, owner);
    Unlink(entry, lists, owner);
    InitListHead(entry, lists[owner := Without(lists[owner], entry)]);
  }

  lemma RestSubset(lists: Lists, owner: ListHead, x: ListHead, head: ListHead)
    requires owner in lists && head in lists
    ensures var rest := lists[owner := Without(lists[owner], x)];
      forall y :: y in Ring(rest, head) ==> y in Ring(lists, head)
  {
    WithoutSubset(lists[owner], x);
  }

  /** list_move: the entry leaves its list and becomes the first of head, which may be the same list. */
  method ListMove(list: ListHead, head: ListHead, ghost lists: Lists, ghost owner: ListHead)
    requires Family(lists) && owner in lists && list in lists[owner] && head in lists
    modifies NodesOf(lists)
    ensures var rest := lists[owner := Without(lists[owner], list)]; Family(rest[head := [list] + rest[head]])
    ensures head.next == To(list) && list.prev == To(head)
    ensures list.next == if old(head.next) == To(list) then old(list.next) else old(head.next)
  {
    assert list in Ring(lists, owner);
    Unlink(list, lists, owner);
    ghost var rest := lists[owner := Without(lists[owner], list)];
    RestSubset(lists, owner, list, head);
    ListAdd(list, head, rest);
  }

  /** list_move_tail: the entry leaves its list and becomes the last of head. */
  method ListMoveTail(list: ListHead, head: ListHead, ghost lists: Lists, ghost owner: ListHead)
    requires Family(lists) && owner in lists && list in lists[owner] && head in lists
    modifies NodesOf(lists)
    ensures var rest := lists[owner := Without(lists[owner], list)]; Family(rest[head := rest[head] + [list]])
    ensures head.prev == To(list) && list.next == To(head)
    ensures list.prev == if old(head.prev) == To(list) then old(list.prev) else old(head.prev)
  {
    assert list in Ring(lists, owner);
    Unlink(list, lists, owner);
    ghost var rest := lists[owner := Without(lists[owner], list)];
    RestSubset(lists, owner, list, head);
    ListAddTail(list, head, rest);
  }

  lemma {:induction false} WithoutSubset(xs: seq<ListHead>, x: ListHead)
    ensures forall y :: y in Without(xs, x) ==> y in xs
  {
    if xs != [] {
      WithoutSubset(xs[1..], x);
    }
  }

  /** list_empty. */
  method ListEmpty(head: ListHead, ghost lists: Lists) returns (empty: bool)
    requires Family(lists) && head in lists
    ensures empty <==> lists[head] == []
  {
    ghost var ring := Ring(lists, head);
    assert Linked(ring) && ring[0].next == To(Succ(ring, 0));
    empty := head.next == To(head);
    assert |ring| > 1 ==> ring[0] != ring[1];
  }

  // Who follows whom when xs goes between h and ys.
  lemma SpliceSucc(h: ListHead, xs: seq<ListHead>, ys: seq<ListHead>, l: ListHead, i: nat)
    requires xs != [] && i <= |xs| + |ys|
    ensures var r, from, to := [h] + (xs + ys), [l] + xs, [h] + ys;
      if i == 0 then r[i] == h && Succ(r, i) == xs[0]
      else if i < |xs| then r[i] == from[i] && Succ(r, i) == Succ(from, i)
      else if i == |xs| then r[i] == from[i] && Succ(r, i) == Succ(to, 0)
      else r[i] == to[i - |xs|] && Succ(r, i) == Succ(to, i - |xs|)
  {
  }

  lemma Apart(ns: seq<ListHead>, ms: seq<ListHead>)
    requires Disjoint(ns, ms)
    ensures forall i, j :: 0 <= i < |ns| && 0 <= j < |ms| ==> ns[i] != ms[j]
  {
    forall i, j | 0 <= i < |ns| && 0 <= j < |ms| ensures ns[i] != ms[j] {
      assert ns[i] in ns;
    }
  }

  // __list_splice on two disjoint rings; the first keeps its links to what were its entries.
  method SpliceRings(list: ListHead, head: ListHead, ghost xs: seq<ListHead>, ghost ys: seq<ListHead>)
    requires Linked([list] + xs) && Linked([head] + ys) && xs != [] && Disjoint([list] + xs, [head] + ys)
    modifies [list] + xs, [head] + ys
    ensures Linked([head] + (xs + ys))
    ensures list.next == old(list.next) && list.prev == old(list.prev)
    ensures list.next.To? && list.prev.To? && old(head.next).To? && list.next.node in xs && list.prev.node in xs
    ensures old(head.next).node in [head] + ys
    ensures head.next == old(list.next) && old(list.next).node.prev == To(head)
    ensures old(list.prev).node.next == old(head.next) && old(head.next).node.prev == old(list.prev)
  {
    ghost var from, to, r := [list] + xs, [head] + ys, [head] + (xs + ys);
    Apart(from, to);
    assert from[0].next == To(Succ(from, 0)) && Succ(from, |xs|) == list && to[0].next == To(Succ(to, 0));
    assert from[|xs|] == xs[|xs| - 1] && from[1] == xs[0];
    var first, last, at := list.next.node, list.prev.node, head.next.node;
    first.prev := To(head);
    head.next := To(first);
    last.next := To(at);
    at.prev := To(last);
    SpliceDistinct(list, head, xs, ys);
    forall i | 0 <= i < |r| ensures r[i].next == To(Succ(r, i)) && Succ(r, i).prev == To(r[i]) {
      SpliceSucc(head, xs, ys, list, i);
      if 0 < i < |xs| {
        SuccInjective(from, i, 0);
      } else if i > |xs| {
        SuccInjective(to, i - |xs|, 0);
      }
    }
  }

  lemma SpliceDistinct(l: ListHead, h: ListHead, xs: seq<ListHead>, ys: seq<ListHead>)
    requires Distinct([l] + xs) && Distinct([h] + ys) && Disjoint([l] + xs, [h] + ys)
    ensures Distinct([h] + (xs + ys)) && l !in xs
  {
    var from, to, r := [l] + xs, [h] + ys, [h] + (xs + ys);
    Apart(from, to);
    forall i, j | 0 <= i < j < |r| ensures r[i] != r[j] {
      var a := if i == 0 then to[0] else if i <= |xs| then from[i] else to[i - |xs|];
      var b := if j <= |xs| then from[j] else to[j - |xs|];
      assert r[i] == a && r[j] == b;
    }
    assert from[0] == l && forall i :: 0 <= i < |xs| ==> from[i + 1] == xs[i];
  }

  // __list_splice within a family.
  method SpliceNonempty(list: ListHead, head: ListHead, ghost lists: Lists)
    requires Family(lists) && list in lists && head in lists && list != head && lists[list] != []
    modifies NodesOf(lists)
    ensures Family((lists - {list})[head := lists[list] + lists[head]])
    ensures list.next == old(list.next) && list.prev == old(list.prev)
    ensures list.next.To? && list.prev.To? && old(head.next).To?
    ensures list.next.node != list && list.prev.node != list && old(head.next).node != list
    ensures head.next == old(list.next) && old(list.next).node.prev == To(head)
    ensures old(list.prev).node.next == old(head.next) && old(head.next).node.prev == old(list.prev)
  {
    ghost var xs, ys := lists[list], lists[head];
    assert Linked(Ring(lists, list)) && Linked(Ring(lists, head)) && Disjoint(Ring(lists, list), Ring(lists, head));
    SpliceRings(list, head, xs, ys);
    SpliceDistinct(list, head, xs, ys);
    SpreadSplice(lists, list, head);
    ghost var lists' := (lists - {list})[head := xs + ys];
    forall h | h in lists' ensures Linked(Ring(lists', h)) {
      if h != head {
        assert Disjoint(Ring(lists, h), Ring(lists, list)) && Disjoint(Ring(lists, h), Ring(lists, head));
        RingKept(Ring(lists, h));
      }
    }
  }

  /** list_splice: all entries of list go to the front of head; list itself is left dangling
      unless it was empty. */
  method ListSplice(list: ListHead, head: ListHead, ghost lists: Lists)
    requires Family(lists) && list in lists && head in lists && list != head
    modifies NodesOf(lists)
    ensures lists[list] == [] ==> Family(lists)
    ensures lists[list] != [] ==> Family((lists - {list})[head := lists[list] + lists[head]])
    ensures list.next == old(list.next) && list.prev == old(list.prev)
    ensures lists[list] != [] ==>
      && old(list.next).To? && old(list.prev).To? && old(head.next).To?
      && head.next == old(list.next) && old(list.next).node.prev == To(head)
      && old(list.prev).node.next == old(head.next) && old(head.next).node.prev == old(list.prev)
  {
    var empty := ListEmpty(list, lists);
    if !empty {
      SpliceNonempty(list, head, lists);
    }
  }

  /** list_splice_init: as list_splice, and list becomes empty. */
  method ListSpliceInit(list: ListHead, head: ListHead, ghost lists: Lists)
    requires Family(lists) && list in lists && head in lists && list != head
    modifies NodesOf(lists)
    ensures Family(lists[head := lists[list] + lists[head]][list := []])
    ensures list.next == To(list) && list.prev == To(list)
    ensures lists[list] != [] ==>
      && old(list.next).To? && old(list.prev).To? && old(head.next).To?
      && head.next == old(list.next) && old(list.next).node.prev == To(head)
      && old(list.prev).node.next == old(head.next) && old(head.next).node.prev == old(list.prev)
  {
    var empty := ListEmpty(list, lists);
    SpliceMaps(lists, list, head);
    if !empty {
      SpliceAndInit(list, head, lists);
    } else {
      assert Linked(Ring(lists, list)) && Ring(lists, list) == [list];
      assert [list][0].next == To(Succ([list], 0)) && Succ([list], 0).prev == To(list);
    }
  }

  method SpliceAndInit(list: ListHead, head: ListHead, ghost lists: Lists)
    requires Family(lists) && list in lists && head in lists && list != head && lists[list] != []
    modifies NodesOf(lists)
    ensures Family((lists - {list})[head := lists[list] + lists[head]][list := []])
    ensures list.next == To(list) && list.prev == To(list)
    ensures old(list.next).To? && old(list.prev).To? && old(head.next).To?
    ensures head.next == old(list.next) && old(list.next).node.prev == To(head)
    ensures old(list.prev).node.next == old(head.next) && old(head.next).node.prev == old(list.prev)
  {
    assert Linked(Ring(lists, list)) && list in Ring(lists, list);
    HeadOutside(lists, list, head);
    SpliceNonempty(list, head, lists);
    InitListHead(list, (lists - {list})[head := lists[list] + lists[head]]);
  }

  lemma SpliceMaps(lists: Lists, list: ListHead, head: ListHead)
    requires list in lists && head in lists && list != head
    ensures var lists' := lists[head := lists[list] + lists[head]][list := []];
      var rest := (lists - {list})[head := lists[list] + lists[head]];
      rest[list := []] == lists' && (lists[list] == [] ==> lists' == lists)
  {
    assert lists[list] == [] ==> lists[list] + lists[head] == lists[head];
  }

  // Once its entries are gone, list is a node of no ring.
  lemma HeadOutside(lists: Lists, list: ListHead, head: ListHead)
    requires Spread(lists) && list in lists && head in lists && list != head && Distinct(Ring(lists, list))
    ensures list !in NodesOf((lists - {list})[head := lists[list] + lists[head]])
  {
    var rest := (lists - {list})[head := lists[list] + lists[head]];
    var ring := Ring(lists, list);
    forall i | 0 <= i < |lists[list]| ensures lists[list][i] != list {
      assert ring[0] == list && ring[i + 1] == lists[list][i];
    }
    forall h | h in rest ensures list !in Ring(rest, h) {
      assert Disjoint(ring, Ring(lists, h)) && list in ring;
    }
  }

  // ----- Any sequence of operations

  datatype Op =
    | Init(n: ListHead)
    | Add(n: ListHead, h: ListHead)
    | AddTail(n: ListHead, h: ListHead)
    | Del(e: ListHead)
    | DelInit(e: ListHead)
    | Move(e: ListHead, h: ListHead)
    | MoveTail(e: ListHead, h: ListHead)
    | Splice(l: ListHead, h: ListHead)
    | SpliceInit(l: ListHead, h: ListHead)

  // Some list of the family holds e.
  ghost predicate Holds(lists: Lists, e: ListHead) {
    exists h :: h in lists && e in lists[h]
  }

  ghost predicate Allowed(lists: Lists, op: Op) {
    match op
    case Init(n) => n !in NodesOf(lists)
    case Add(n, h) => h in lists && n !in NodesOf(lists)
    case AddTail(n, h) => h in lists && n !in NodesOf(lists)
    case Del(e) => Holds(lists, e)
    case DelInit(e) => Holds(lists, e)
    case Move(e, h) => Holds(lists, e) && h in lists
    case MoveTail(e, h) => Holds(lists, e) && h in lists
    case Splice(l, h) => l in lists && h in lists && l != h
    case SpliceInit(l, h) => l in lists && h in lists && l != h
  }

  function Drop(lists: Lists, e: ListHead): Lists {
    map h | h in lists :: Without(lists[h], e)
  }

  // The same operation on sequences.
  ghost function After(lists: Lists, op: Op): Lists
    requires Allowed(lists, op)
  {
    match op
    case Init(n) => lists[n := []]
    case Add(n, h) => lists[h := [n] + lists[h]]
    case AddTail(n, h) => lists[h := lists[h] + [n]]
    case Del(e) => Drop(lists, e)
    case DelInit(e) => Drop(lists, e)[e := []]
    case Move(e, h) => Drop(lists, e)[h := [e] + Drop(lists, e)[h]]
    case MoveTail(e, h) => Drop(lists, e)[h := Drop(lists, e)[h] + [e]]
    case Splice(l, h) => if lists[l] == [] then lists else (lists - {l})[h := lists[l] + lists[h]]
    case SpliceInit(l, h) => lists[h := lists[l] + lists[h]][l := []]
  }

  // Dropping an entry touches only the list that holds it.
  lemma DropIsUpdate(lists: Lists, e: ListHead, owner: ListHead)
    requires Spread(lists) && owner in lists && e in lists[owner]
    ensures Drop(lists, e) == lists[owner := Without(lists[owner], e)]
  {
    forall h | h in lists && h != owner ensures Without(lists[h], e) == lists[h] {
      assert Disjoint(Ring(lists, owner), Ring(lists, h)) && e in Ring(lists, owner);
      WithoutAbsent(lists[h], e);
    }
  }

  // The node an operation brings into the family.
  ghost function Entering(op: Op): set<ListHead> {
    match op
    case Init(n) => {n}
    case Add(n, _) => {n}
    case AddTail(n, _) => {n}
    case _ => {}
  }

  lemma AfterNodes(lists: Lists, op: Op)
    requires Allowed(lists, op)
    ensures NodesOf(After(lists, op)) <= NodesOf(lists) + Entering(op)
  {
    var lists' := After(lists, op);
    if op.Del? || op.DelInit? || op.Move? || op.MoveTail? {
      var owner :| owner in lists && op.e in lists[owner];
      assert op.e in Ring(lists, owner);
    }
    forall h, x | h in lists' && x in Ring(lists', h) ensures x in NodesOf(lists) + Entering(op) {
      AfterRing(lists, op, h, x);
    }
  }

  lemma AfterRing(lists: Lists, op: Op, h: ListHead, x: ListHead)
    requires Allowed(lists, op) && h in After(lists, op) && x in Ring(After(lists, op), h)
    ensures || x in Entering(op) || (h in lists && x in Ring(lists, h))
            || ((op.Splice? || op.SpliceInit?) && x in Ring(lists, op.l))
            || ((op.DelInit? || op.Move? || op.MoveTail?) && x == op.e)
  {
    if h in lists {
      if op.Del? || op.DelInit? || op.Move? || op.MoveTail? {
        WithoutSubset(lists[h], op.e);
      }
    }
  }

  method Execute(op: Op, ghost lists: Lists)
    requires Family(lists) && Allowed(lists, op)
    modifies NodesOf(lists), Entering(op)
    ensures Family(After(lists, op))
    ensures op.Init? ==> op.n.next == To(op.n) && op.n.prev == To(op.n)
    ensures op.Add? ==> op.h.next == To(op.n) && op.n.next == old(op.h.next) && op.n.prev == To(op.h)
    ensures op.AddTail? ==> op.h.prev == To(op.n) && op.n.prev == old(op.h.prev) && op.n.next == To(op.h)
    ensures op.Del? ==> op.e.next == Poison1 && op.e.prev == Poison2
    ensures op.DelInit? ==> op.e.next == To(op.e) && op.e.prev == To(op.e)
    ensures op.Del? || op.DelInit? ==>
      && old(op.e.prev).To? && old(op.e.next).To?
      && old(op.e.prev).node.next == old(op.e.next) && old(op.e.next).node.prev == old(op.e.prev)
    ensures op.Move? ==>
      && op.h.next == To(op.e) && op.e.prev == To(op.h)
      && op.e.next == if old(op.h.next) == To(op.e) then old(op.e.next) else old(op.h.next)
    ensures op.MoveTail? ==>
      && op.h.prev == To(op.e) && op.e.next == To(op.h)
      && op.e.prev == if old(op.h.prev) == To(op.e) then old(op.e.prev) else old(op.h.prev)
    ensures (op.Splice? || op.SpliceInit?) && lists[op.l] != [] ==>
      && old(op.l.next).To? && old(op.l.prev).To? && old(op.h.next).To?
      && op.h.next == old(op.l.next) && old(op.l.next).node.prev == To(op.h)
      && old(op.l.prev).node.next == old(op.h.next) && old(op.h.next).node.prev == old(op.l.prev)
    ensures op.Splice? ==> op.l.next == old(op.l.next) && op.l.prev == old(op.l.prev)
    ensures op.SpliceInit? ==> op.l.next == To(op.l) && op.l.prev == To(op.l)
  {
    match op
    case Init(n) => InitListHead(n, lists);
    case Add(n, h) => ListAdd(n, h, lists);
    case AddTail(n, h) => ListAddTail(n, h, lists);
    case Del(e) =>
      ghost var owner :| owner in lists && e in lists[owner];
      DropIsUpdate(lists, e, owner);
      ListDel(e, lists, owner);
    case DelInit(e) =>
      ghost var owner :| owner in lists && e in lists[owner];
      DropIsUpdate(lists, e, owner);
      ListDelInit(e, lists, owner);
    case Move(e, h) =>
      ghost var owner :| owner in lists && e in lists[owner];
      DropIsUpdate(lists, e, owner);
      ListMove(e, h, lists, owner);
    case MoveTail(e, h) =>
      ghost var owner :| owner in lists && e in lists[owner];
      DropIsUpdate(lists, e, owner);
      ListMoveTail(e, h, lists, owner);
    case Splice(l, h) => ListSplice(l, h, lists);
    case SpliceInit(l, h) => ListSpliceInit(l, h, lists);
  }

  /** Deleting what was just added, at either end, gives back the family. */
  lemma DelUndoesAdd(lists: Lists, n: ListHead, h: ListHead)
    requires h in lists && n !in NodesOf(lists)
    ensures AllAllowed(lists, [Add(n, h), Del(n)]) && AfterAll(lists, [Add(n, h), Del(n)]) == lists
    ensures AllAllowed(lists, [AddTail(n, h), Del(n)]) && AfterAll(lists, [AddTail(n, h), Del(n)]) == lists
  {
    forall g | g in lists ensures Without(lists[g], n) == lists[g] && n !in lists[g] {
      assert n !in Ring(lists, g);
      WithoutAbsent(lists[g], n);
    }
    var front, back := After(lists, Add(n, h)), After(lists, AddTail(n, h));
    assert n in front[h] && n in back[h];
    WithoutLast(lists[h], n);
    assert Drop(front, n) == lists;
    assert Drop(back, n) == lists;
    assert [Add(n, h), Del(n)][1..] == [Del(n)] && [AddTail(n, h), Del(n)][1..] == [Del(n)];
    assert [Del(n)][1..] == [];
    assert AllAllowed(lists, []) && AfterAll(lists, []) == lists;
    assert AllAllowed(front, [Del(n)]) && AfterAll(front, [Del(n)]) == lists;
    assert AllAllowed(back, [Del(n)]) && AfterAll(back, [Del(n)]) == lists;
  }

  lemma {:induction false} WithoutLast(xs: seq<ListHead>, x: ListHead)
    requires x !in xs
    ensures Without(xs + [x], x) == xs
  {
    if xs != [] {
      assert (xs + [x])[1..] == xs[1..] + [x];
      WithoutLast(xs[1..], x);
    }
  }

  ghost predicate AllAllowed(lists: Lists, ops: seq<Op>)
    decreases |ops|
  {
    ops == [] || (Allowed(lists, ops[0]) && AllAllowed(After(lists, ops[0]), ops[1..]))
  }

  ghost function AfterAll(lists: Lists, ops: seq<Op>): Lists
    requires AllAllowed(lists, ops)
    decreases |ops|
  {
    if ops == [] then lists else AfterAll(After(lists, ops[0]), ops[1..])
  }

  /** Any allowed sequence of operations leaves every list of the family a ring in both
      directions, holding what the same operations on sequences give. */
  method Run(ops: seq<Op>, ghost lists: Lists, ghost universe: set<ListHead>)
    requires Family(lists) && AllAllowed(lists, ops)
    requires NodesOf(lists) <= universe && forall i :: 0 <= i < |ops| ==> Entering(ops[i]) <= universe
    modifies universe
    ensures Family(AfterAll(lists, ops))
    decreases |ops|
  {
    if ops != [] {
      AfterNodes(lists, ops[0]);
      Execute(ops[0], lists);
      Run(ops[1..], After(lists, ops[0]), universe);
    }
  }

  /** On the nodes: adding an entry at either end and deleting it again restores every link. */
  method AddAndDelete(n: ListHead, h: ListHead, tail: bool, ghost lists: Lists)
    requires Family(lists) && h in lists && n !in NodesOf(lists)
    modifies NodesOf(lists), n
    ensures Family(lists)
  {
    DelUndoesAdd(lists, n, h);
    var ops := if tail then [AddTail(n, h), Del(n)] else [Add(n, h), Del(n)];
    Run(ops, lists, NodesOf(lists) + {n});
  }
}
