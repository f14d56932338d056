/**
 Rounding up to a multiple, and the search for an aligned area of clear bits.
 */
module BitmapRegion {
  import opened BitWords
  import opened Bitmap
  import opened Division
  import opened Machine
  import opened WordRounding

  // ----- Rounding up to a multiple of a power of two

  function AlignMask(x: nat, mask: word): nat
    requires x + mask < WORD
  {
    And(x + mask, Not(mask))
  }

  predicate Aligned(i: nat, d: nat)
    requires d > 0
  {
    i % d == 0
  }

  lemma RoundDownAligned(y: nat, k: nat)
    ensures Aligned(RoundDown(y, k), Pow2(k))
  {
    RoundDownIsMultiple(y, k);
    DivModUnique(RoundDown(y, k), Pow2(k), Quotient(y, k), 0);
  }

  // Aligned numbers are at least d apart.
  lemma AlignedSpacing(i: nat, j: nat, d: nat)
    requires d > 0 && Aligned(i, d) && Aligned(j, d) && i < j
    ensures i + d <= j
  {
    SameRemainder(i, j, d);
  }

  ghost predicate IsMask(mask: word) {
    exists k :: 0 <= k <= 64 && mask == Pow2(k) - 1
  }

  lemma AlignMaskRounds(x: nat, mask: word, k: nat)
    requires x + mask < WORD && k <= 64 && mask == Pow2(k) - 1
    ensures AlignMask(x, mask) == RoundDown(x + mask, k)
  {
    WordIsPow2();
    Pow2Mono(k, 64);
    AndRoundsDown(x + mask, k, 64);
  }

  /** The least multiple of mask + 1 that is at least x. */
  lemma AlignMaskIs(x: nat, mask: word, d: nat)
    requires x + mask < WORD && IsMask(mask) && d == mask + 1
    ensures Aligned(AlignMask(x, mask), d) && x <= AlignMask(x, mask) <= x + mask
    ensures forall i :: x <= i && Aligned(i, d) ==> AlignMask(x, mask) <= i
  {
    var k :| 0 <= k <= 64 && mask == Pow2(k) - 1;
    AlignMaskRounds(x, mask, k);
    RoundDownIs(x + mask, k);
    RoundDownAligned(x + mask, k);
    var r := RoundDown(x + mask, k);
    forall i | x <= i && Aligned(i, d) ensures r <= i {
      if i < r {
        AlignedSpacing(i, r, d);
      }
    }
  }

  // ----- bitmap_find_next_zero_area

  ghost predicate AreaFree(ws: seq<word>, size: nat, i: nat, nr: nat) {
    i + nr <= size && NoneIn(ws, true, i, i + nr)
  }

  // No aligned free area begins in [from, to).
  ghost predicate NoAreaIn(ws: seq<word>, size: nat, nr: nat, d: nat, from: nat, to: nat)
    requires d > 0
  {
    forall i :: from <= i < to && Aligned(i, d) ==> !AreaFree(ws, size, i, nr)
  }

  // Free areas at or after start begin no earlier than the aligned next zero bit.
  lemma SkipToZero(ws: seq<word>, size: nat, nr: nat, mask: word, d: nat, start: nat, zero: nat)
    requires nr >= 1 && IsMask(mask) && d == mask + 1 && size + mask < WORD
    requires IsFirst(ws, false, size, start, zero) && zero <= size
    ensures NoAreaIn(ws, size, nr, d, start, AlignMask(zero, mask))
  {
    AlignMaskIs(zero, mask, d);
    forall i | start <= i < AlignMask(zero, mask) && Aligned(i, d) ensures !AreaFree(ws, size, i, nr) {
      assert i < zero;
      assert i < size ==> BitAt(ws, i);
    }
  }

  // A set bit at i rules out areas that begin from index up to i.
  lemma SkipPastSet(ws: seq<word>, size: nat, nr: nat, d: nat, index: nat, i: nat)
    requires d > 0 && index <= i < index + nr && size <= 64 * |ws| && i < size && BitAt(ws, i)
    ensures NoAreaIn(ws, size, nr, d, index, i + 1)
  {
  }

  lemma NoAreaJoin(ws: seq<word>, size: nat, nr: nat, d: nat, a: nat, b: nat, c: nat)
    requires d > 0 && NoAreaIn(ws, size, nr, d, a, b) && NoAreaIn(ws, size, nr, d, b, c)
    ensures NoAreaIn(ws, size, nr, d, a, c)
  {
  }

  /** The first aligned run of nr clear bits from start on; a value above size if there is none.
      No sum may leave 64 bits. */
  method FindNextZeroArea(addr: array<word>, size: word, start: word, nr: nat, alignMask: word)
    returns (r: nat)
    requires size <= 64 * addr.Length && size + alignMask + nr < WORD && IsMask(alignMask)
    ensures nr >= 1 && r <= size ==>
      && start <= r && Aligned(r, alignMask + 1) && AreaFree(addr[..], size, r, nr)
      && NoAreaIn(addr[..], size, nr, alignMask + 1, start, r)
    ensures nr >= 1 && r > size ==> NoAreaIn(addr[..], size, nr, alignMask + 1, start, size + 1)
    ensures nr == 0 ==> exists zero :: IsFirst(addr[..], false, size, start, zero) && r == AlignMask(zero, alignMask)
  {
    ghost var ws, d := addr[..], alignMask + 1;
    var from: word := start;
    while true
      invariant start <= from && (nr == 0 ==> from == start)
      invariant nr >= 1 ==> NoAreaIn(ws, size, nr, d, start, from)
      decreases size - from
    {
      var zero := FindNextZeroBit(addr, size, from);
      AlignMaskIs(zero, alignMask, d);
      var index := AlignMask(zero, alignMask);
      if nr >= 1 {
        SkipToZero(ws, size, nr, alignMask, d, from, zero);
        NoAreaJoin(ws, size, nr, d, start, from, index);
      }
      var end := index + nr;
      if end > size {
        return end;
      }
      var i := FindNextBit(addr, end, index);
      if i >= end {
        return index;
      }
      SkipPastSet(ws, size, nr, d, index, i);
      NoAreaJoin(ws, size, nr, d, start, index, i + 1);
      from := i + 1;
    }
  }
}
