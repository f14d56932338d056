/**
 The search for a free aligned region, and the int its positions pass through: when
 the search stays within ints, and what happens when it does not.
 */
module RegionSearch {
  import opened BitWords
  import opened Bitmap
  import opened BitmapRegion
  import opened Division
  import opened Machine

  // Regions are 1 << order bits for an int shift that does not overflow.
  const MAX_ORDER := 30

  // No region of this order that begins below end and fits in bits is free.
  ghost predicate NoFreeBelow(ws: seq<word>, bits: nat, order: nat, end: nat) {
    forall i :: 0 <= i < end && Aligned(i, Pow2(order)) ==> !AreaFree(ws, bits, i, Pow2(order))
  }

  lemma NextCandidate(ws: seq<word>, bits: nat, order: nat, pos: nat)
    requires Aligned(pos, Pow2(order)) && NoFreeBelow(ws, bits, order, pos) && !AreaFree(ws, bits, pos, Pow2(order))
    ensures Aligned(pos + Pow2(order), Pow2(order)) && NoFreeBelow(ws, bits, order, pos + Pow2(order))
  {
    var n, end := Pow2(order), pos + Pow2(order);
    NextSameRemainder(pos, n);
    forall i | 0 <= i < end && Aligned(i, n) ensures !AreaFree(ws, bits, i, n) {
      if pos < i {
        AlignedSpacing(pos, i, n);
      }
    }
  }

  lemma NoFreeAtEnd(ws: seq<word>, bits: nat, order: nat, pos: nat)
    requires NoFreeBelow(ws, bits, order, pos) && pos + Pow2(order) > bits
    ensures NoFreeBelow(ws, bits, order, bits)
  {
  }

  // ----- Positions as ints

  // pos / BITS_PER_LONG, divided as an unsigned long and stored in an int.
  function WordIndex(pos: int32): int32 { CInt(pos % WORD / 64) }

  /** The word index is right for every position that is not negative and negative for the others. */
  lemma WordIndexIs(pos: int32)
    ensures if pos >= 0 then WordIndex(pos) == pos / 64 else WordIndex(pos) < 0
  {
    if pos >= 0 {
      assert pos % WORD == pos;
    } else {
      NegativeIndex(pos);
    }
  }

  lemma NegativeIndex(pos: int32)
    requires pos < 0
    ensures WordIndex(pos) == -((63 - pos) / 64)
  {
    var q := (63 - pos) / 64;
    assert pos % WORD == WORD + pos;
    assert (WORD + pos) / 64 == 0x400_0000_0000_0000 - q;
  }

  /** Converting a position to int keeps it exactly below 2^31. */
  lemma PositionKept(pos: word)
    ensures CInt(pos) == pos <==> pos < INT_LIMIT
  {
  }

  /** From 2^32 on an allocation or a release reaches a region other than the one asked for. */
  lemma PositionAliased(pos: word)
    requires pos < INT_LIMIT
    ensures CInt(pos + WORD32) == pos
  {
  }

  // From pos on, every position the search tests survives the conversion.
  ghost predicate SafeFrom(ws: seq<word>, bits: nat, order: nat, pos: nat)
    decreases bits - pos
  {
    || pos + Pow2(order) > bits
    || (CInt(pos) == pos && (AreaFree(ws, bits, pos, Pow2(order)) || SafeFrom(ws, bits, order, pos + Pow2(order))))
  }

  // The map is short, or a region that begins below 2^31 is free.
  ghost predicate FindFits(ws: seq<word>, bits: nat, order: nat) {
    || bits < INT_LIMIT + Pow2(order)
    || exists i :: 0 <= i < INT_LIMIT && Aligned(i, Pow2(order)) && AreaFree(ws, bits, i, Pow2(order))
  }

  lemma {:induction false} PowSplit(k: nat, n: nat)
    requires k <= n
    ensures Pow2(n) == Pow2(n - k) * Pow2(k)
    decreases n
  {
    if k < n {
      PowSplit(k, n - 1);
      assert 2 * (Pow2(n - 1 - k) * Pow2(k)) == (2 * Pow2(n - 1 - k)) * Pow2(k);
    }
  }

  lemma LimitAligned(order: nat)
    requires order <= MAX_ORDER
    ensures Aligned(INT_LIMIT, Pow2(order))
  {
    Pow2Plus8(0);
    Pow2Plus8(8);
    Pow2Plus8(16);
    assert Pow2(31) == 2 * Pow2(30) == 4 * Pow2(29) == 8 * Pow2(28);
    assert Pow2(28) == 2 * Pow2(27) == 4 * Pow2(26) == 8 * Pow2(25) == 16 * Pow2(24);
    PowSplit(order, 31);
    DivModUnique(INT_LIMIT, Pow2(order), Pow2(31 - order), 0);
  }

  lemma {:induction false} SafeFromIff(ws: seq<word>, bits: nat, order: nat, pos: nat)
    requires order <= MAX_ORDER && pos <= INT_LIMIT && Aligned(pos, Pow2(order)) && NoFreeBelow(ws, bits, order, pos)
    ensures SafeFrom(ws, bits, order, pos) <==> FindFits(ws, bits, order)
    decreases bits - pos
  {
    var n := Pow2(order);
    if pos + n <= bits && pos < INT_LIMIT && !AreaFree(ws, bits, pos, n) {
      LimitAligned(order);
      AlignedSpacing(pos, INT_LIMIT, n);
      NextCandidate(ws, bits, order, pos);
      SafeFromIff(ws, bits, order, pos + n);
    }
  }

  /** The search stays within ints if and only if the map has fewer than 2^31 bits before its last
      candidate or a region that begins below 2^31 is free. */
  lemma FindSafeIff(ws: seq<word>, bits: nat, order: nat)
    requires order <= MAX_ORDER
    ensures SafeFrom(ws, bits, order, 0) <==> FindFits(ws, bits, order)
  {
    SafeFromIff(ws, bits, order, 0);
  }

  /** On every longer map that is full below 2^31 the search fails: its position turns into -2^31,
      and it reads the word 2^25 words before the map. */
  lemma FullMapFails(ws: seq<word>, bits: nat, order: nat)
    requires order <= MAX_ORDER && bits >= INT_LIMIT + Pow2(order) && NoFreeBelow(ws, bits, order, INT_LIMIT)
    ensures !SafeFrom(ws, bits, order, 0)
    ensures CInt(INT_LIMIT) == -INT_LIMIT && WordIndex(CInt(INT_LIMIT)) == -0x200_0000
  {
    FindSafeIff(ws, bits, order);
    NegativeIndex(CInt(INT_LIMIT));
  }

  /** For instance, a map of 2^31 set bits and one more. */
  lemma LongFullMap()
    ensures var ws: seq<word> := seq(0x200_0001, _ => ONES);
      INT_LIMIT + 1 <= 64 * |ws| && !SafeFrom(ws, INT_LIMIT + 1, 0, 0)
  {
    var ws: seq<word> := seq(0x200_0001, _ => ONES);
    var bits, n := INT_LIMIT + 1, Pow2(0);
    forall i | 0 <= i < INT_LIMIT && Aligned(i, n) ensures !AreaFree(ws, bits, i, n) {
      BitOnes(i % 64);
      assert BitAt(ws, i);
    }
    FullMapFails(ws, bits, 0);
  }
}
