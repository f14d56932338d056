/**
 Changing ranges of bits: whole and partial words masked in place.
 */
module BitmapRange {
  import opened BitWords
  import opened Bitmap
  import opened Machine

  // ws is ws0 with the bits of [lo, hi) set to val.
  ghost predicate Range(ws: seq<word>, ws0: seq<word>, lo: nat, hi: nat, val: bool) {
    |ws| == |ws0| && forall j :: 0 <= j < 64 * |ws| ==> BitAt(ws, j) == if lo <= j < hi then val else BitAt(ws0, j)
  }

  // The mask for [lo, hi), which lies in word p.
  ghost predicate MaskIs(mask: word, p: nat, lo: nat, hi: nat) {
    64 * p <= lo <= hi <= 64 * (p + 1) && forall i :: 0 <= i < 64 ==> (Bit(mask, i) <==> lo <= 64 * p + i < hi)
  }

  lemma SetMasked(ws: seq<word>, p: nat, mask: word, lo: nat, hi: nat)
    requires p < |ws| && MaskIs(mask, p, lo, hi)
    ensures Range(ws[p := Or(ws[p], mask)], ws, lo, hi, true)
  {
    var ws' := ws[p := Or(ws[p], mask)];
    forall j | 0 <= j < 64 * |ws| ensures BitAt(ws', j) == if lo <= j < hi then true else BitAt(ws, j) {
      if j / 64 == p {
        BitOr(ws[p], mask, j % 64);
      }
    }
  }

  lemma ClearMasked(ws: seq<word>, p: nat, mask: word, lo: nat, hi: nat)
    requires p < |ws| && MaskIs(mask, p, lo, hi)
    ensures Range(ws[p := And(ws[p], Not(mask))], ws, lo, hi, false)
  {
    var ws' := ws[p := And(ws[p], Not(mask))];
    forall j | 0 <= j < 64 * |ws| ensures BitAt(ws', j) == if lo <= j < hi then false else BitAt(ws, j) {
      if j / 64 == p {
        BitAnd(ws[p], Not(mask), j % 64);
        BitNot(mask, j % 64);
      }
    }
  }

  lemma RangeJoin(ws0: seq<word>, ws1: seq<word>, ws2: seq<word>, a: nat, b: nat, c: nat, val: bool)
    requires a <= b <= c && Range(ws1, ws0, a, b, val) && Range(ws2, ws1, b, c, val)
    ensures Range(ws2, ws0, a, c, val)
  {
  }

  function LastWordMask(nbits: nat): word {
    if nbits % 64 != 0 then PlaceIsPow2(nbits % 64); Shl(1, nbits % 64) - 1 else ONES
  }

  lemma LastWordMaskBit(nbits: nat, i: nat)
    requires i < 64
    ensures Bit(LastWordMask(nbits), i) <==> nbits % 64 == 0 || i < nbits % 64
  {
    if nbits % 64 == 0 {
      BitOnes(i);
    } else {
      PlaceIsPow2(nbits % 64);
      BitPred(nbits % 64, i);
    }
  }

  // The mask of the first word, and the whole-word mask.
  lemma FirstMaskIs(start: nat)
    ensures MaskIs(Shl(ONES, start % 64), start / 64, start, 64 * (start / 64 + 1))
  {
    forall i | 0 <= i < 64 ensures Bit(Shl(ONES, start % 64), i) <==> start <= 64 * (start / 64) + i {
      HighMask(start % 64, i);
    }
  }

  lemma WholeMaskIs(p: nat)
    ensures MaskIs(ONES, p, 64 * p, 64 * (p + 1))
  {
    forall i | 0 <= i < 64 ensures Bit(ONES, i) {
      BitOnes(i);
    }
  }

  // Cutting a mask off at hi.
  lemma CutMask(mask: word, p: nat, lo: nat, hi: nat)
    requires MaskIs(mask, p, lo, 64 * (p + 1)) && lo <= hi < 64 * (p + 1) && hi > 64 * p
    ensures MaskIs(And(mask, LastWordMask(hi)), p, lo, hi)
  {
    var x := LastWordMask(hi);
    forall i | 0 <= i < 64 ensures Bit(x, i) <==> 64 * p + i < hi {
      LastWordMaskBit(hi, i);
    }
    CutBy(mask, x, p, lo, hi);
  }

  lemma CutBy(mask: word, x: word, p: nat, lo: nat, hi: nat)
    requires MaskIs(mask, p, lo, 64 * (p + 1)) && lo <= hi <= 64 * (p + 1)
    requires forall i :: 0 <= i < 64 ==> (Bit(x, i) <==> 64 * p + i < hi)
    ensures MaskIs(And(mask, x), p, lo, hi)
  {
    forall i | 0 <= i < 64 ensures Bit(And(mask, x), i) <==> lo <= 64 * p + i < hi {
      BitAnd(mask, x, i);
    }
  }

  /** Sets exactly the bits [start, start + nr). */
  method BitmapSet(bitmap: array<word>, start: nat, nr: nat)
    requires start + nr <= 64 * bitmap.Length && start + nr < INT_LIMIT
    modifies bitmap
    ensures Range(bitmap[..], old(bitmap[..]), start, start + nr, true)
  {
    ghost var ws0 := bitmap[..];
    var p, size, left := start / 64, start + nr, nr as int;
    var bitsToSet := 64 - start % 64;
    var mask := Shl(ONES, start % 64);
    FirstMaskIs(start);
    while left - bitsToSet >= 0
      invariant 0 <= left <= nr && size - left + bitsToSet == 64 * (p + 1)
      invariant MaskIs(mask, p, size - left, 64 * (p + 1))
      invariant Range(bitmap[..], ws0, start, size - left, true)
    {
      ghost var ws, at := bitmap[..], size - left;
      SetMasked(ws, p, mask, at, 64 * (p + 1));
      bitmap[p] := Or(bitmap[p], mask);
      assert bitmap[..] == ws[p := Or(ws[p], mask)];
      RangeJoin(ws0, ws, bitmap[..], start, at, 64 * (p + 1), true);
      left := left - bitsToSet;
      bitsToSet := 64;
      mask := ONES;
      p := p + 1;
      WholeMaskIs(p);
    }
    if left != 0 {
      ghost var ws, at := bitmap[..], size - left;
      CutMask(mask, p, at, size);
      mask := And(mask, LastWordMask(size));
      SetMasked(ws, p, mask, at, size);
      bitmap[p] := Or(bitmap[p], mask);
      assert bitmap[..] == ws[p := Or(ws[p], mask)];
      RangeJoin(ws0, ws, bitmap[..], start, at, size, true);
    }
  }

  /** Clears exactly the bits [start, start + nr). */
  method BitmapClear(bitmap: array<word>, start: nat, nr: nat)
    requires start + nr <= 64 * bitmap.Length && start + nr < INT_LIMIT
    modifies bitmap
    ensures Range(bitmap[..], old(bitmap[..]), start, start + nr, false)
  {
    ghost var ws0 := bitmap[..];
    var p, size, left := start / 64, start + nr, nr as int;
    var bitsToClear := 64 - start % 64;
    var mask := Shl(ONES, start % 64);
    FirstMaskIs(start);
    while left - bitsToClear >= 0
      invariant 0 <= left <= nr && size - left + bitsToClear == 64 * (p + 1)
      invariant MaskIs(mask, p, size - left, 64 * (p + 1))
      invariant Range(bitmap[..], ws0, start, size - left, false)
    {
      ghost var ws, at := bitmap[..], size - left;
      ClearMasked(ws, p, mask, at, 64 * (p + 1));
      bitmap[p] := And(bitmap[p], Not(mask));
      assert bitmap[..] == ws[p := And(ws[p], Not(mask))];
      RangeJoin(ws0, ws, bitmap[..], start, at, 64 * (p + 1), false);
      left := left - bitsToClear;
      bitsToClear := 64;
      mask := ONES;
      p := p + 1;
      WholeMaskIs(p);
    }
    if left != 0 {
      ghost var ws, at := bitmap[..], size - left;
      CutMask(mask, p, at, size);
      mask := And(mask, LastWordMask(size));
      ClearMasked(ws, p, mask, at, size);
      bitmap[p] := And(bitmap[p], Not(mask));
      assert bitmap[..] == ws[p := And(ws[p], Not(mask))];
      RangeJoin(ws0, ws, bitmap[..], start, at, size, false);
    }
  }
}
