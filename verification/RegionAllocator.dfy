/**
 The power-of-two region allocator on top of a bitmap, and what holds of it
 over any sequence of calls.
 */
module RegionAllocator {
  import opened BitWords
  import opened Bitmap
  import opened BitmapRange
  import opened BitmapRegion
  import opened Division
  import opened Machine
  import opened RegionSearch

  datatype RegOpKind = IsFree | Alloc | Free

  // m ones, built without shifting by 64.
  function OnesMask(m: nat): word
    requires 1 <= m <= 64
  {
    PlaceIsPow2(m - 1);
    Shl(1, m - 1) + (Shl(1, m - 1) - 1)
  }

  function RegionMask(pos: nat, order: nat): word {
    var nbits := Pow2(order);
    Shl(OnesMask(if nbits < 64 then nbits else 64), pos % 64)
  }

  lemma SmallOrders(order: nat)
    requires order < 6
    ensures Pow2(order) in {1, 2, 4, 8, 16, 32}
  {
    assert Pow2(2) == 4 && Pow2(3) == 8 && Pow2(4) == 16 && Pow2(5) == 32;
  }

  lemma SmallRegionFits(pos: nat, n: nat)
    requires n in {1, 2, 4, 8, 16, 32} && Aligned(pos, n)
    ensures pos % 64 + n <= 64
  {
    if n == 2 {
      assert pos % 2 == 0;
    } else if n == 4 {
      assert pos % 4 == 0;
    } else if n == 8 {
      assert pos % 8 == 0;
    } else if n == 16 {
      assert pos % 16 == 0;
    } else if n == 32 {
      assert pos % 32 == 0;
    }
  }

  lemma {:induction false} LargeOrder(order: nat)
    requires order >= 6
    ensures Pow2(order) == 64 * Pow2(order - 6)
  {
    if order == 6 {
      SmallOrders(5);
      assert Pow2(5) == 32;
    } else {
      LargeOrder(order - 1);
    }
  }

  lemma LargeRegionFits(pos: nat, order: nat)
    requires order >= 6 && Aligned(pos, Pow2(order))
    ensures pos % 64 == 0 && Pow2(order) % 64 == 0 && Pow2(order) >= 64
  {
    LargeOrder(order);
    MultipleOfMultiple(pos, 64, Pow2(order - 6));
  }

  lemma OnesOf(m: nat)
    requires 1 <= m <= 64
    ensures OnesMask(m) == Pow2(m) - 1
  {
    PlaceIsPow2(m - 1);
  }

  // m ones shifted up by off.
  lemma ShiftedOnes(x: word, m: nat, off: nat, i: nat)
    requires x == Pow2(m) - 1 && i < 64
    ensures Bit(Shl(x, off), i) <==> off <= i < off + m
  {
    BitShl(x, off, i);
    if off <= i {
      BitPred(m, i - off);
    }
  }

  lemma SmallMaskIs(pos: nat, order: nat)
    requires order < 6 && Aligned(pos, Pow2(order))
    ensures MaskIs(RegionMask(pos, order), pos / 64, pos, pos + Pow2(order))
  {
    var n, off := Pow2(order), pos % 64;
    SmallOrders(order);
    SmallRegionFits(pos, n);
    OnesOf(n);
    var x := OnesMask(n);
    forall i | 0 <= i < 64 ensures Bit(Shl(x, off), i) <==> off <= i < off + n {
      ShiftedOnes(x, n, off, i);
    }
    SpanIs(Shl(x, off), pos, n);
  }

  lemma SpanIs(mask: word, pos: nat, n: nat)
    requires pos % 64 + n <= 64 && forall i :: 0 <= i < 64 ==> (Bit(mask, i) <==> pos % 64 <= i < pos % 64 + n)
    ensures MaskIs(mask, pos / 64, pos, pos + n)
  {
  }

  lemma LargeMaskIs(pos: nat, order: nat)
    requires order >= 6 && Aligned(pos, Pow2(order))
    ensures RegionMask(pos, order) == ONES
  {
    LargeRegionFits(pos, order);
    OnesOf(64);
    WordIsPow2();
  }

  // ----- A region is masked word by word

  function NLongs(order: nat): nat { (Pow2(order) + 63) / 64 }

  // Where the part of the region in its i-th word begins.
  function PartStart(pos: nat, order: nat, i: nat): nat {
    if order < 6 then (if i == 0 then pos else pos + Pow2(order)) else pos + 64 * i
  }

  lemma PartMask(pos: nat, order: nat, i: nat)
    requires Aligned(pos, Pow2(order)) && i < NLongs(order)
    ensures MaskIs(RegionMask(pos, order), pos / 64 + i, PartStart(pos, order, i), PartStart(pos, order, i + 1))
    ensures PartStart(pos, order, i + 1) <= pos + Pow2(order)
  {
    if order < 6 {
      SmallOrders(order);
      assert i == 0;
      SmallMaskIs(pos, order);
    } else {
      LargeMaskIs(pos, order);
      LargeRegionFits(pos, order);
      LargePart(pos, Pow2(order), i);
    }
  }

  lemma LargePart(pos: nat, n: nat, i: nat)
    requires pos % 64 == 0 && n % 64 == 0 && i < (n + 63) / 64
    ensures MaskIs(ONES, pos / 64 + i, pos + 64 * i, pos + 64 * (i + 1)) && pos + 64 * (i + 1) <= pos + n
  {
    WholeMaskIs(pos / 64 + i);
  }

  lemma PartsEnd(pos: nat, order: nat)
    requires Aligned(pos, Pow2(order))
    ensures NLongs(order) >= 1 && PartStart(pos, order, NLongs(order)) == pos + Pow2(order)
  {
    if order < 6 {
      SmallOrders(order);
    } else {
      LargeRegionFits(pos, order);
    }
  }

  lemma TestMasked(ws: seq<word>, p: nat, mask: word, lo: nat, hi: nat)
    requires p < |ws| && MaskIs(mask, p, lo, hi)
    ensures And(ws[p], mask) == 0 <==> NoneIn(ws, true, lo, hi)
  {
    var tmp := And(ws[p], mask);
    ZeroBits(tmp);
    forall i | 0 <= i < 64 ensures Bit(tmp, i) <==> Bit(ws[p], i) && lo <= 64 * p + i < hi {
      BitAnd(ws[p], mask, i);
    }
    forall j | lo <= j < hi ensures BitAt(ws, j) <==> Bit(tmp, j - 64 * p) {
      assert j / 64 == p && j % 64 == j - 64 * p;
    }
    if tmp != 0 {
      var i := Ffs(tmp);
      assert BitAt(ws, 64 * p + i);
    }
  }

  // An aligned region inside a map of ws words.
  predicate InMap(ws: nat, pos: int, order: nat) {
    0 <= pos && pos + Pow2(order) <= 64 * ws && Aligned(pos, Pow2(order))
  }

  method RegionIsFree(bitmap: array<word>, pos: nat, order: nat, mask: word) returns (free: bool)
    requires InMap(bitmap.Length, pos, order) && mask == RegionMask(pos, order)
    ensures free <==> NoneIn(bitmap[..], true, pos, pos + Pow2(order))
  {
    ghost var ws := bitmap[..];
    PartsEnd(pos, order);
    var i, n := 0, NLongs(order);
    while i < n
      invariant 0 <= i <= n && PartStart(pos, order, i) <= 64 * |ws|
      invariant NoneIn(ws, true, pos, PartStart(pos, order, i))
    {
      PartMask(pos, order, i);
      TestMasked(ws, pos / 64 + i, mask, PartStart(pos, order, i), PartStart(pos, order, i + 1));
      if And(bitmap[pos / 64 + i], mask) != 0 {
        return false;
      }
      i := i + 1;
    }
    return true;
  }

  method FillRegion(bitmap: array<word>, pos: nat, order: nat, mask: word, val: bool)
    requires InMap(bitmap.Length, pos, order) && mask == RegionMask(pos, order)
    modifies bitmap
    ensures Range(bitmap[..], old(bitmap[..]), pos, pos + Pow2(order), val)
  {
    ghost var ws0 := bitmap[..];
    PartsEnd(pos, order);
    var i, n := 0, NLongs(order);
    while i < n
      invariant 0 <= i <= n && pos <= PartStart(pos, order, i) <= 64 * |ws0|
      invariant Range(bitmap[..], ws0, pos, PartStart(pos, order, i), val)
    {
      ghost var ws, lo, hi := bitmap[..], PartStart(pos, order, i), PartStart(pos, order, i + 1);
      var p := pos / 64 + i;
      PartMask(pos, order, i);
      if val {
        SetMasked(ws, p, mask, lo, hi);
        bitmap[p] := Or(bitmap[p], mask);
        assert bitmap[..] == ws[p := Or(ws[p], mask)];
      } else {
        ClearMasked(ws, p, mask, lo, hi);
        bitmap[p] := And(bitmap[p], Not(mask));
        assert bitmap[..] == ws[p := And(ws[p], Not(mask))];
      }
      RangeJoin(ws0, ws, bitmap[..], pos, lo, hi, val);
      i := i + 1;
    }
  }

  // The mask for one word of the region.
  method MakeMask(pos: int32, order: nat) returns (mask: word)
    requires pos >= 0
    ensures mask == RegionMask(pos, order)
  {
    var nbitsReg := Pow2(order);
    WordIndexIs(pos);
    var index := WordIndex(pos);
    var offset := pos - index * 64;
    var nbitsInLong := if nbitsReg < 64 then nbitsReg else 64;
    PlaceIsPow2(nbitsInLong - 1);
    mask := Shl(1, nbitsInLong - 1);
    mask := mask + (mask - 1);
    mask := Shl(mask, offset);
  }

  /** Tests, sets or clears one aligned region; 1 exactly for a successful test. */
  method RegOp(bitmap: array<word>, pos: int32, order: nat, op: RegOpKind) returns (ret: int)
    requires order <= MAX_ORDER && InMap(bitmap.Length, pos, order)
    modifies bitmap
    ensures op.IsFree? ==> bitmap[..] == old(bitmap[..])
    ensures op.Alloc? ==> Range(bitmap[..], old(bitmap[..]), pos, pos + Pow2(order), true)
    ensures op.Free? ==> Range(bitmap[..], old(bitmap[..]), pos, pos + Pow2(order), false)
    ensures ret == if op.IsFree? && NoneIn(old(bitmap[..]), true, pos, pos + Pow2(order)) then 1 else 0
  {
    ret := 0;
    var mask := MakeMask(pos, order);
    match op
    case IsFree =>
      var free := RegionIsFree(bitmap, pos, order, mask);
      ret := if free then 1 else 0;
    case Alloc => FillRegion(bitmap, pos, order, mask, true);
    case Free => FillRegion(bitmap, pos, order, mask, false);
  }

  // ----- Finding a free region

  /** Takes the lowest free aligned region below bits; fails only when there is none.  The position
      goes through an int, so the map must be one on which the search stays within ints. */
  method BitmapFindFreeRegion(bitmap: array<word>, bits: word, order: nat) returns (r: int)
    requires bits <= 64 * bitmap.Length && order <= MAX_ORDER && FindFits(bitmap[..], bits, order)
    modifies bitmap
    ensures r == -1 ==> bitmap[..] == old(bitmap[..]) && NoFreeBelow(bitmap[..], bits, order, bits)
    ensures r != -1 ==>
      && 0 <= r < INT_LIMIT && Aligned(r, Pow2(order)) && AreaFree(old(bitmap[..]), bits, r, Pow2(order))
      && NoFreeBelow(old(bitmap[..]), bits, order, r)
      && Range(bitmap[..], old(bitmap[..]), r, r + Pow2(order), true)
  {
    ghost var ws := bitmap[..];
    FindSafeIff(ws, bits, order);
    var n, pos := Pow2(order), 0;
    while pos + n <= bits
      invariant Aligned(pos, n) && NoFreeBelow(ws, bits, order, pos) && bitmap[..] == ws
      invariant SafeFrom(ws, bits, order, pos)
      decreases bits - pos
    {
      var free := RegOp(bitmap, CInt(pos), order, IsFree);
      if free == 1 {
        var _ := RegOp(bitmap, CInt(pos), order, Alloc);
        return CInt(pos);
      }
      NextCandidate(ws, bits, order, pos);
      pos := pos + n;
    }
    NoFreeAtEnd(ws, bits, order, pos);
    return -1;
  }

  /** Clears the region at pos converted to int, which is pos itself exactly below 2^31. */
  method BitmapReleaseRegion(bitmap: array<word>, pos: word, order: nat)
    requires order <= MAX_ORDER && InMap(bitmap.Length, CInt(pos), order)
    modifies bitmap
    ensures Range(bitmap[..], old(bitmap[..]), CInt(pos), CInt(pos) + Pow2(order), false)
  {
    var _ := RegOp(bitmap, CInt(pos), order, Free);
  }

  /** Takes the region at pos converted to int: 0 if it was free, else -1 and nothing changes. */
  method BitmapAllocateRegion(bitmap: array<word>, pos: word, order: nat) returns (r: int)
    requires order <= MAX_ORDER && InMap(bitmap.Length, CInt(pos), order)
    modifies bitmap
    ensures r == if NoneIn(old(bitmap[..]), true, CInt(pos), CInt(pos) + Pow2(order)) then 0 else -1
    ensures r == 0 ==> Range(bitmap[..], old(bitmap[..]), CInt(pos), CInt(pos) + Pow2(order), true)
    ensures r == -1 ==> bitmap[..] == old(bitmap[..])
  {
    var free := RegOp(bitmap, CInt(pos), order, IsFree);
    if free != 1 {
      return -1;
    }
    var _ := RegOp(bitmap, CInt(pos), order, Alloc);
    return 0;
  }

  // ----- Whole runs

  datatype Region = Region(pos: nat, order: nat)

  function EndOf(g: Region): nat { g.pos + Pow2(g.order) }

  predicate Covers(g: Region, j: nat) { g.pos <= j < EndOf(g) }

  predicate Apart(g: Region, h: Region) { EndOf(g) <= h.pos || EndOf(h) <= g.pos }

  // Live regions are aligned, of legal order and pairwise disjoint.
  ghost predicate WellSpread(live: set<Region>) {
    && (forall g :: g in live ==> g.order <= MAX_ORDER && Aligned(g.pos, Pow2(g.order)) && g.pos < INT_LIMIT)
    && (forall g, h :: g in live && h in live && g != h ==> Apart(g, h))
  }

  ghost predicate Owned(live: set<Region>, j: nat) {
    exists g :: g in live && Covers(g, j)
  }

  // The set bits are exactly the bits of live regions.
  ghost predicate Tracks(ws: seq<word>, live: set<Region>) {
    && (forall g :: g in live ==> EndOf(g) <= 64 * |ws|)
    && (forall j :: 0 <= j < 64 * |ws| ==> (BitAt(ws, j) <==> Owned(live, j)))
  }

  // Region g meets no live region.
  ghost predicate Vacant(live: set<Region>, g: Region) {
    forall h :: h in live ==> Apart(g, h)
  }

  lemma VacantIsFree(ws: seq<word>, live: set<Region>, g: Region)
    requires Tracks(ws, live) && EndOf(g) <= 64 * |ws|
    ensures NoneIn(ws, true, g.pos, EndOf(g)) <==> Vacant(live, g)
  {
    if !Vacant(live, g) {
      var h :| h in live && !Apart(g, h);
      var j := if g.pos < h.pos then h.pos else g.pos;
      assert Covers(h, j) && Owned(live, j);
      assert BitAt(ws, j);
    }
  }

  lemma VacancyIsFit(ws: seq<word>, live: set<Region>, bits: nat, order: nat)
    requires Tracks(ws, live) && bits <= 64 * |ws|
    ensures VacancyFits(bits, live, order) <==> FindFits(ws, bits, order)
  {
    var n := Pow2(order);
    forall i | 0 <= i && i + n <= bits
      ensures Vacant(live, Region(i, order)) <==> AreaFree(ws, bits, i, n)
    {
      VacantIsFree(ws, live, Region(i, order));
    }
  }

  lemma AllocTracks(ws: seq<word>, ws': seq<word>, live: set<Region>, g: Region)
    requires WellSpread(live) && Tracks(ws, live) && g.order <= MAX_ORDER && InMap(|ws|, g.pos, g.order)
    requires g.pos < INT_LIMIT && Vacant(live, g) && Range(ws', ws, g.pos, EndOf(g), true)
    ensures g !in live && WellSpread(live + {g}) && Tracks(ws', live + {g})
  {
    forall j | 0 <= j < 64 * |ws'| ensures BitAt(ws', j) <==> Owned(live + {g}, j) {
      if Owned(live, j) {
        var h :| h in live && Covers(h, j);
        assert h in live + {g};
      }
      if Covers(g, j) {
        assert g in live + {g};
      }
    }
  }

  lemma ReleaseTracks(ws: seq<word>, ws': seq<word>, live: set<Region>, g: Region)
    requires WellSpread(live) && Tracks(ws, live) && g in live && Range(ws', ws, g.pos, EndOf(g), false)
    ensures WellSpread(live - {g}) && Tracks(ws', live - {g})
  {
    forall j | 0 <= j < 64 * |ws'| ensures BitAt(ws', j) <==> Owned(live - {g}, j) {
      if Owned(live, j) && !Covers(g, j) {
        var h :| h in live && Covers(h, j);
        assert h in live - {g};
      }
      if Owned(live - {g}, j) {
        var h :| h in live - {g} && Covers(h, j);
        assert Apart(g, h);
      }
    }
  }

  // ----- The calls as the live regions alone tell them

  datatype Call = Find(order: nat) | Allocate(pos: nat, order: nat) | Release(pos: nat, order: nat)

  // A search for this order stays within ints, told by the live regions.
  ghost predicate VacancyFits(bits: nat, live: set<Region>, order: nat) {
    || bits < INT_LIMIT + Pow2(order)
    || exists i :: 0 <= i < INT_LIMIT && Aligned(i, Pow2(order)) && i + Pow2(order) <= bits
         && Vacant(live, Region(i, order))
  }

  // Searches and positions stay within ints, regions lie in the map, and only live ones are released.
  ghost predicate Allowed(bits: nat, words: nat, live: set<Region>, c: Call) {
    match c
    case Find(order) => order <= MAX_ORDER && VacancyFits(bits, live, order)
    case Allocate(pos, order) => order <= MAX_ORDER && pos < INT_LIMIT && InMap(words, pos, order)
    case Release(pos, order) => Region(pos, order) in live
  }

  // The first vacant candidate from pos on, or -1.
  ghost function LowestVacant(bits: nat, live: set<Region>, order: nat, pos: nat): int
    decreases bits - pos
  {
    if pos + Pow2(order) > bits then -1
    else if Vacant(live, Region(pos, order)) then pos
    else LowestVacant(bits, live, order, pos + Pow2(order))
  }

  // The answer to a call and the regions live after it.
  ghost function Serve(bits: nat, live: set<Region>, c: Call): (int, set<Region>) {
    match c
    case Find(order) =>
      var pos := LowestVacant(bits, live, order, 0);
      (pos, if pos < 0 then live else live + {Region(pos, order)})
    case Allocate(pos, order) =>
      if Vacant(live, Region(pos, order)) then (0, live + {Region(pos, order)}) else (-1, live)
    case Release(pos, order) => (0, live - {Region(pos, order)})
  }

  ghost predicate NoVacancyBelow(bits: nat, live: set<Region>, order: nat, end: nat) {
    forall i :: 0 <= i < end && Aligned(i, Pow2(order)) && i + Pow2(order) <= bits ==> !Vacant(live, Region(i, order))
  }

  // r is the lowest vacant aligned region below bits, or -1 and there is none.
  ghost predicate IsLowest(bits: nat, live: set<Region>, order: nat, r: int) {
    if r == -1 then NoVacancyBelow(bits, live, order, bits)
    else
      && 0 <= r && r + Pow2(order) <= bits && Aligned(r, Pow2(order))
      && Vacant(live, Region(r, order)) && NoVacancyBelow(bits, live, order, r)
  }

  lemma {:induction false} LowestVacantIs(bits: nat, live: set<Region>, order: nat, pos: nat)
    requires Aligned(pos, Pow2(order)) && NoVacancyBelow(bits, live, order, pos)
    ensures IsLowest(bits, live, order, LowestVacant(bits, live, order, pos))
    decreases bits - pos
  {
    var n := Pow2(order);
    if pos + n <= bits && !Vacant(live, Region(pos, order)) {
      NextSameRemainder(pos, n);
      forall i | 0 <= i < pos + n && Aligned(i, n) && i + n <= bits ensures !Vacant(live, Region(i, order)) {
        if pos < i {
          AlignedSpacing(pos, i, n);
        }
      }
      LowestVacantIs(bits, live, order, pos + n);
    }
  }

  /** The search finds the lowest vacant aligned region, and that determines its answer. */
  lemma FindIsLowest(bits: nat, live: set<Region>, order: nat, r: int)
    ensures IsLowest(bits, live, order, r) <==> r == LowestVacant(bits, live, order, 0)
  {
    var low := LowestVacant(bits, live, order, 0);
    LowestVacantIs(bits, live, order, 0);
    if IsLowest(bits, live, order, r) {
      if r != -1 {
        VacancyBounds(bits, live, order, r, if low == -1 then bits else low);
      }
      if low != -1 {
        VacancyBounds(bits, live, order, low, if r == -1 then bits else r);
      }
    }
  }

  lemma VacancyBounds(bits: nat, live: set<Region>, order: nat, r: nat, end: nat)
    requires r + Pow2(order) <= bits && Aligned(r, Pow2(order)) && Vacant(live, Region(r, order))
    requires NoVacancyBelow(bits, live, order, end)
    ensures end <= r
  {
  }

  // ----- Sequences of calls

  ghost predicate AllAllowed(bits: nat, words: nat, live: set<Region>, calls: seq<Call>) {
    var n := |calls|;
    n == 0 || (&& AllAllowed(bits, words, live, calls[..n - 1])
               && Allowed(bits, words, ServeAll(bits, live, calls[..n - 1]).1, calls[n - 1]))
  }

  // All answers and the regions live in the end.
  ghost function ServeAll(bits: nat, live: set<Region>, calls: seq<Call>): (seq<int>, set<Region>) {
    if calls == [] then ([], live)
    else
      var (rets, mid) := ServeAll(bits, live, calls[..|calls| - 1]);
      var (ret, end) := Serve(bits, mid, calls[|calls| - 1]);
      (rets + [ret], end)
  }

  /** Call i is answered from the regions that the calls before it have left live. */
  lemma {:induction false} AnswerAt(bits: nat, live: set<Region>, calls: seq<Call>, i: nat)
    requires i < |calls|
    ensures |ServeAll(bits, live, calls).0| == |calls|
    ensures ServeAll(bits, live, calls).0[i] == Serve(bits, ServeAll(bits, live, calls[..i]).1, calls[i]).0
  {
    var n := |calls|;
    if i < n - 1 {
      AnswerAt(bits, live, calls[..n - 1], i);
      assert calls[..n - 1][..i] == calls[..i];
    } else if n > 1 {
      AnswerAt(bits, live, calls[..n - 1], 0);
    }
  }

  lemma {:induction false} AllAllowedPrefix(bits: nat, words: nat, live: set<Region>, calls: seq<Call>, i: nat)
    requires AllAllowed(bits, words, live, calls) && i <= |calls|
    ensures AllAllowed(bits, words, live, calls[..i])
  {
    var n := |calls|;
    if i < n {
      AllAllowedPrefix(bits, words, live, calls[..n - 1], i);
      assert calls[..n - 1][..i] == calls[..i];
    } else {
      assert calls[..i] == calls;
    }
  }

  /** Releasing what a search has just found gives back the live regions. */
  lemma ReleaseUndoesFind(bits: nat, words: nat, live: set<Region>, order: nat, r: int)
    requires r == LowestVacant(bits, live, order, 0) && r >= 0
    ensures var found := Serve(bits, live, Find(order)).1;
      Allowed(bits, words, found, Release(r, order)) && Serve(bits, found, Release(r, order)) == (0, live)
  {
    FindIsLowest(bits, live, order, r);
    var g := Region(r, order);
    assert !Apart(g, g);
    assert (live + {g}) - {g} == live;
  }

  // What one call answers and does to the live regions.
  ghost predicate Answered(bits: nat, live: set<Region>, c: Call, ret: int, live': set<Region>) {
    match c
    case Find(order) =>
      && IsLowest(bits, live, order, ret)
      && live' == live + if ret == -1 then {} else {Region(ret, order)}
    case Allocate(pos, order) =>
      && ret == (if Vacant(live, Region(pos, order)) then 0 else -1)
      && live' == live + if ret == 0 then {Region(pos, order)} else {}
    case Release(pos, order) => ret == 0 && live' == live - {Region(pos, order)}
  }

  /** The specification of a call meets its description, which leaves it no choice. */
  lemma ServeIsAnswer(bits: nat, live: set<Region>, c: Call, ret: int, live': set<Region>)
    ensures Answered(bits, live, c, ret, live') <==> (ret, live') == Serve(bits, live, c)
  {
    assert live + {} == live;
    if c.Find? {
      FindIsLowest(bits, live, c.order, ret);
      FindIsLowest(bits, live, c.order, LowestVacant(bits, live, c.order, 0));
    }
  }

  /** The live regions along a run from nothing, each call answered from those before it. */
  lemma History(bits: nat, calls: seq<Call>) returns (lives: seq<set<Region>>)
    ensures var (rets, live) := ServeAll(bits, {}, calls);
      && |rets| == |calls| && |lives| == |calls| + 1 && lives[0] == {} && lives[|calls|] == live
      && forall i :: 0 <= i < |calls| ==> Answered(bits, lives[i], calls[i], rets[i], lives[i + 1])
  {
    lives := seq(|calls| + 1, i requires 0 <= i <= |calls| => ServeAll(bits, {}, calls[..i]).1);
    assert calls[..0] == [] && calls[..|calls|] == calls;
    var rets := ServeAll(bits, {}, calls).0;
    if calls != [] {
      AnswerAt(bits, {}, calls, 0);
    }
    forall i | 0 <= i < |calls| ensures Answered(bits, lives[i], calls[i], rets[i], lives[i + 1]) {
      AnswerAt(bits, {}, calls, i);
      assert calls[..i + 1][..i] == calls[..i];
      ServeIsAnswer(bits, lives[i], calls[i], rets[i], lives[i + 1]);
    }
  }

  class Allocator {
    const bitmap: array<word>
    const bits: word
    ghost var live: set<Region>

    ghost predicate Valid()
      reads this, bitmap
    {
      bits <= 64 * bitmap.Length && WellSpread(live) && Tracks(bitmap[..], live)
    }

    constructor (bits: word)
      ensures Valid() && this.bits == bits && live == {} && fresh(bitmap) && bitmap.Length == (bits + 63) / 64
    {
      this.bits := bits;
      bitmap := new word[(bits + 63) / 64](_ => 0);
      live := {};
      new;
      forall j | 0 <= j < 64 * bitmap.Length ensures !BitAt(bitmap[..], j) {
        BitZero(j % 64);
      }
    }

    method FindFreeRegion(order: nat) returns (ret: int)
      requires Valid() && order <= MAX_ORDER && VacancyFits(bits, live, order)
      modifies this, bitmap
      ensures Valid() && (ret, live) == Serve(bits, old(live), Find(order))
      ensures IsLowest(bits, old(live), order, ret)
      ensures live == old(live) + if ret == -1 then {} else {Region(ret, order)}
    {
      ghost var ws, was := bitmap[..], live;
      VacancyIsFit(ws, was, bits, order);
      ret := BitmapFindFreeRegion(bitmap, bits, order);
      ghost var end := if ret == -1 then bits else ret;
      forall i | 0 <= i < end && Aligned(i, Pow2(order)) && i + Pow2(order) <= bits
        ensures !Vacant(was, Region(i, order))
      {
        VacantIsFree(ws, was, Region(i, order));
      }
      if ret != -1 {
        ghost var g := Region(ret, order);
        VacantIsFree(ws, was, g);
        AllocTracks(ws, bitmap[..], was, g);
        live := live + {g};
      }
      FindIsLowest(bits, was, order, ret);
    }

    method AllocateRegion(pos: nat, order: nat) returns (ret: int)
      requires Valid() && order <= MAX_ORDER && pos < INT_LIMIT && InMap(bitmap.Length, pos, order)
      modifies this, bitmap
      ensures Valid() && (ret, live) == Serve(bits, old(live), Allocate(pos, order))
      ensures ret == if Vacant(old(live), Region(pos, order)) then 0 else -1
      ensures live == old(live) + if ret == 0 then {Region(pos, order)} else {}
    {
      ghost var ws, was, g := bitmap[..], live, Region(pos, order);
      VacantIsFree(ws, was, g);
      ret := BitmapAllocateRegion(bitmap, pos, order);
      if ret == 0 {
        AllocTracks(ws, bitmap[..], was, g);
        live := live + {g};
      }
    }

    method ReleaseRegion(pos: nat, order: nat)
      requires Valid() && Region(pos, order) in live
      modifies this, bitmap
      ensures Valid() && live == Serve(bits, old(live), Release(pos, order)).1
      ensures live == old(live) - {Region(pos, order)}
    {
      ghost var ws, was, g := bitmap[..], live, Region(pos, order);
      BitmapReleaseRegion(bitmap, pos, order);
      ReleaseTracks(ws, bitmap[..], was, g);
      live := live - {g};
    }

    /** Finding a region and releasing it again leaves every bit as it was. */
    method FindAndRelease(order: nat)
      requires Valid() && order <= MAX_ORDER && VacancyFits(bits, live, order)
      modifies this, bitmap
      ensures Valid() && live == old(live)
      ensures forall j :: 0 <= j < 64 * bitmap.Length ==> BitAt(bitmap[..], j) == BitAt(old(bitmap[..]), j)
    {
      ghost var ws, was := bitmap[..], live;
      var ret := FindFreeRegion(order);
      if ret >= 0 {
        ReleaseUndoesFind(bits, bitmap.Length, was, order, ret);
        ReleaseRegion(ret, order);
      }
      forall j | 0 <= j < 64 * bitmap.Length ensures BitAt(bitmap[..], j) == BitAt(ws, j) {
        assert BitAt(ws, j) <==> Owned(was, j);
      }
    }

    method Answer(c: Call) returns (ret: int)
      requires Valid() && Allowed(bits, bitmap.Length, live, c)
      modifies this, bitmap
      ensures Valid() && (ret, live) == Serve(bits, old(live), c)
      ensures Answered(bits, old(live), c, ret, live)
    {
      ghost var was := live;
      match c {
        case Find(order) => ret := FindFreeRegion(order);
        case Allocate(pos, order) => ret := AllocateRegion(pos, order);
        case Release(pos, order) =>
          ReleaseRegion(pos, order);
          ret := 0;
      }
      ServeIsAnswer(bits, was, c, ret, live);
    }

    /** Any allowed sequence of calls: the answers and the live regions are those of the
        specification, live regions stay aligned and disjoint, and the set bits are their union. */
    method Run(calls: seq<Call>) returns (rets: seq<int>)
      requires Valid() && AllAllowed(bits, bitmap.Length, live, calls)
      modifies this, bitmap
      ensures Valid() && (rets, live) == ServeAll(bits, old(live), calls)
    {
      ghost var was := live;
      rets := [];
      assert calls[..0] == [];
      for i := 0 to |calls|
        invariant Valid() && (rets, live) == ServeAll(bits, was, calls[..i])
      {
        AllAllowedPrefix(bits, bitmap.Length, was, calls, i + 1);
        assert calls[..i + 1][..i] == calls[..i];
        var ret := Answer(calls[i]);
        rets := rets + [ret];
      }
      assert calls[..|calls|] == calls;
    }
  }

  // Every search is answered with the lowest region vacant then, or -1 exactly when none is, and takes it.
  ghost predicate FindsAnswered(bits: nat, calls: seq<Call>, rets: seq<int>, lives: seq<set<Region>>)
    requires |rets| == |calls| && |lives| == |calls| + 1
  {
    forall i :: 0 <= i < |calls| && calls[i].Find? ==>
      && IsLowest(bits, lives[i], calls[i].order, rets[i])
      && lives[i + 1] == lives[i] + if rets[i] == -1 then {} else {Region(rets[i], calls[i].order)}
  }

  // Every allocation is answered with 0 exactly if the region is vacant then, and takes it exactly then.
  ghost predicate AllocationsAnswered(calls: seq<Call>, rets: seq<int>, lives: seq<set<Region>>)
    requires |rets| == |calls| && |lives| == |calls| + 1
  {
    forall i :: 0 <= i < |calls| && calls[i].Allocate? ==>
      && rets[i] == (if Vacant(lives[i], Region(calls[i].pos, calls[i].order)) then 0 else -1)
      && lives[i + 1] == lives[i] + if rets[i] == 0 then {Region(calls[i].pos, calls[i].order)} else {}
  }

  ghost predicate ReleasesApplied(calls: seq<Call>, lives: seq<set<Region>>)
    requires |lives| == |calls| + 1
  {
    forall i :: 0 <= i < |calls| && calls[i].Release? ==>
      lives[i + 1] == lives[i] - {Region(calls[i].pos, calls[i].order)}
  }

  lemma AnswersSplit(bits: nat, calls: seq<Call>, rets: seq<int>, lives: seq<set<Region>>)
    requires |rets| == |calls| && |lives| == |calls| + 1
    requires forall i :: 0 <= i < |calls| ==> Answered(bits, lives[i], calls[i], rets[i], lives[i + 1])
    ensures FindsAnswered(bits, calls, rets, lives)
    ensures AllocationsAnswered(calls, rets, lives)
    ensures ReleasesApplied(calls, lives)
  {
    forall i | 0 <= i < |calls| && calls[i].Find?
      ensures IsLowest(bits, lives[i], calls[i].order, rets[i])
      ensures lives[i + 1] == lives[i] + if rets[i] == -1 then {} else {Region(rets[i], calls[i].order)}
    {
      FindAnswer(bits, lives[i], calls[i].order, rets[i], lives[i + 1]);
    }
    forall i | 0 <= i < |calls| && calls[i].Allocate?
      ensures rets[i] == if Vacant(lives[i], Region(calls[i].pos, calls[i].order)) then 0 else -1
      ensures lives[i + 1] == lives[i] + if rets[i] == 0 then {Region(calls[i].pos, calls[i].order)} else {}
    {
      AllocateAnswer(bits, lives[i], calls[i].pos, calls[i].order, rets[i], lives[i + 1]);
    }
    forall i | 0 <= i < |calls| && calls[i].Release?
      ensures lives[i + 1] == lives[i] - {Region(calls[i].pos, calls[i].order)}
    {
      assert Answered(bits, lives[i], Release(calls[i].pos, calls[i].order), rets[i], lives[i + 1]);
    }
  }

  lemma FindAnswer(bits: nat, live: set<Region>, order: nat, ret: int, live': set<Region>)
    requires Answered(bits, live, Find(order), ret, live')
    ensures IsLowest(bits, live, order, ret) && live' == live + if ret == -1 then {} else {Region(ret, order)}
  {
  }

  lemma AllocateAnswer(bits: nat, live: set<Region>, pos: nat, order: nat, ret: int, live': set<Region>)
    requires Answered(bits, live, Allocate(pos, order), ret, live')
    ensures ret == if Vacant(live, Region(pos, order)) then 0 else -1
    ensures live' == live + if ret == 0 then {Region(pos, order)} else {}
  {
  }

  /** From an empty map: after any allowed sequence of calls a bit is set exactly if a live region
      covers it, and live regions are aligned and pairwise disjoint; lives[i] are the regions live
      before call i.  Every search was answered with the lowest region vacant at that moment, or -1
      exactly when none was; every allocation with 0 exactly if the region was vacant; and the live
      regions changed by what was found, allocated or released. */
  method RunFromEmpty(bits: word, calls: seq<Call>)
    returns (a: Allocator, rets: seq<int>, ghost lives: seq<set<Region>>)
    requires AllAllowed(bits, (bits + 63) / 64, {}, calls)
    ensures fresh(a) && fresh(a.bitmap) && a.bits == bits
    ensures |rets| == |calls| && |lives| == |calls| + 1 && lives[0] == {} && lives[|calls|] == a.live
    ensures WellSpread(a.live) && Tracks(a.bitmap[..], a.live)
    ensures FindsAnswered(bits, calls, rets, lives)
    ensures AllocationsAnswered(calls, rets, lives)
    ensures ReleasesApplied(calls, lives)
  {
    a := new Allocator(bits);
    rets := a.Run(calls);
    lives := History(bits, calls);
    AnswersSplit(bits, calls, rets, lives);
  }
}
