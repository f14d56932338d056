/**
 Unsigned 64-bit words as numbers, with the C operators on them: bitwise and,
 or and complement, shifts that drop what leaves the word, and the masks the
 bitmap library builds from them, all read bit by bit.
 */
module BitWords {
  import opened Machine

  type word = x: int | 0 <= x < WORD

  const ONES: word := 0xFFFF_FFFF_FFFF_FFFF

  function Pow2(n: nat): (p: nat)
    ensures p > 0
  {
    if n == 0 then 1 else 2 * Pow2(n - 1)
  }

  lemma Pow2Plus8(n: nat)
    ensures Pow2(n + 8) == 256 * Pow2(n)
  {
    assert Pow2(n + 4) == 2 * Pow2(n + 3) == 4 * Pow2(n + 2) == 8 * Pow2(n + 1);
    assert Pow2(n + 8) == 2 * Pow2(n + 7) == 4 * Pow2(n + 6) == 8 * Pow2(n + 5);
  }

  lemma WordIsPow2()
    ensures Pow2(64) == WORD && Pow2(63) == 0x8000_0000_0000_0000
  {
    Pow2Plus8(0);
    Pow2Plus8(8);
    Pow2Plus8(16);
    Pow2Plus8(24);
    Pow2Plus8(32);
    Pow2Plus8(40);
    Pow2Plus8(48);
    Pow2Plus8(56);
  }

  predicate Bit(x: nat, i: nat) {
    if i == 0 then x % 2 == 1 else Bit(x / 2, i - 1)
  }

  // ----- The operators

  function AndNat(x: nat, y: nat): nat {
    if x == 0 then 0 else (if x % 2 == 1 && y % 2 == 1 then 1 else 0) + 2 * AndNat(x / 2, y / 2)
  }

  function OrNat(x: nat, y: nat): nat {
    if x == 0 then y else (if x % 2 == 1 || y % 2 == 1 then 1 else 0) + 2 * OrNat(x / 2, y / 2)
  }

  function And(x: word, y: word): word {
    AndBound(x, y);
    AndNat(x, y)
  }

  function Or(x: word, y: word): word {
    WordIsPow2();
    OrBound(x, y, 64);
    OrNat(x, y)
  }

  function Not(x: word): word { ONES - x }

  function Double(x: word): word { 2 * x % WORD }

  function Shl(x: word, k: nat): word { if k == 0 then x else Double(Shl(x, k - 1)) }

  function Shr(x: word, k: nat): word { if k == 0 then x else Shr(x, k - 1) / 2 }

  lemma {:induction false} AndBound(x: nat, y: nat)
    ensures AndNat(x, y) <= x
  {
    if x > 0 {
      AndBound(x / 2, y / 2);
    }
  }

  lemma {:induction false} OrBound(x: nat, y: nat, n: nat)
    requires x < Pow2(n) && y < Pow2(n)
    ensures OrNat(x, y) < Pow2(n)
    decreases n
  {
    if x > 0 && n > 0 {
      OrBound(x / 2, y / 2, n - 1);
    }
  }

  // ----- The operators bit by bit

  lemma {:induction false} BitZero(i: nat)
    ensures !Bit(0, i)
  {
    if i > 0 {
      BitZero(i - 1);
    }
  }

  lemma {:induction false} BitAnd(x: nat, y: nat, i: nat)
    ensures Bit(AndNat(x, y), i) <==> Bit(x, i) && Bit(y, i)
    decreases i
  {
    if x == 0 {
      BitZero(i);
    } else if i > 0 {
      BitAnd(x / 2, y / 2, i - 1);
    }
  }

  lemma {:induction false} BitOr(x: nat, y: nat, i: nat)
    ensures Bit(OrNat(x, y), i) <==> Bit(x, i) || Bit(y, i)
    decreases i
  {
    if x == 0 {
      BitZero(i);
    } else if i > 0 {
      BitOr(x / 2, y / 2, i - 1);
    }
  }

  lemma {:induction false} BitComplement(x: nat, n: nat, i: nat)
    requires x < Pow2(n) && i < n
    ensures Bit(Pow2(n) - 1 - x, i) <==> !Bit(x, i)
    decreases n
  {
    assert Pow2(n) == 2 * Pow2(n - 1);
    if i > 0 {
      BitComplement(x / 2, n - 1, i - 1);
      assert (Pow2(n) - 1 - x) / 2 == Pow2(n - 1) - 1 - x / 2;
    }
  }

  lemma BitNot(x: word, i: nat)
    requires i < 64
    ensures Bit(Not(x), i) <==> !Bit(x, i)
  {
    WordIsPow2();
    BitComplement(x, 64, i);
  }

  // The top bit of an n + 1 bit number does not show in the lower ones.
  lemma {:induction false} BitBelowTop(x: nat, n: nat, i: nat)
    requires x >= Pow2(n) && i < n
    ensures Bit(x - Pow2(n), i) <==> Bit(x, i)
    decreases n
  {
    assert Pow2(n) == 2 * Pow2(n - 1);
    if i > 0 {
      BitBelowTop(x / 2, n - 1, i - 1);
      assert (x - Pow2(n)) / 2 == x / 2 - Pow2(n - 1);
    }
  }

  lemma BitDouble(x: word, i: nat)
    requires i < 64
    ensures Bit(Double(x), i) <==> i > 0 && Bit(x, i - 1)
  {
    WordIsPow2();
    if x < Pow2(63) {
      assert Double(x) == 2 * x;
    } else {
      assert Double(x) == 2 * (x - Pow2(63));
      if i > 0 {
        BitBelowTop(x, 63, i - 1);
      }
    }
  }

  /** Left shift moves bit i - k to i. */
  lemma {:induction false} BitShl(x: word, k: nat, i: nat)
    requires i < 64
    ensures Bit(Shl(x, k), i) <==> k <= i && Bit(x, i - k)
  {
    if k > 0 {
      BitDouble(Shl(x, k - 1), i);
      if i > 0 {
        BitShl(x, k - 1, i - 1);
      }
    }
  }

  /** Right shift moves bit i + k to i. */
  lemma {:induction false} BitShr(x: word, k: nat, i: nat)
    ensures Bit(Shr(x, k), i) <==> Bit(x, i + k)
  {
    if k > 0 {
      BitShr(x, k - 1, i + 1);
    }
  }

  lemma {:induction false} NoBitsZero(x: nat, n: nat)
    requires x < Pow2(n) && forall i :: 0 <= i < n ==> !Bit(x, i)
    ensures x == 0
    decreases n
  {
    if n > 0 {
      forall i | 0 <= i < n - 1 ensures !Bit(x / 2, i) {
        assert !Bit(x, i + 1);
      }
      NoBitsZero(x / 2, n - 1);
      assert !Bit(x, 0);
    }
  }

  predicate NoBits(x: word) { forall i :: 0 <= i < 64 ==> !Bit(x, i) }

  /** A word is zero exactly when none of its bits is set. */
  lemma ZeroBits(x: word)
    ensures x == 0 <==> NoBits(x)
  {
    if x == 0 {
      forall i | 0 <= i < 64 ensures !Bit(x, i) {
        BitZero(i);
      }
    } else {
      WordIsPow2();
      if NoBits(x) {
        NoBitsZero(x, 64);
      }
    }
  }

  lemma {:induction false} BitPastEnd(x: nat, n: nat, i: nat)
    requires x < Pow2(n) && n <= i
    ensures !Bit(x, i)
    decreases n
  {
    if n == 0 {
      BitZero(i);
    } else {
      BitPastEnd(x / 2, n - 1, i - 1);
    }
  }

  lemma BitOnes(i: nat)
    requires i < 64
    ensures Bit(ONES, i)
  {
    BitNot(0, i);
    BitZero(i);
  }

  // ----- Masks

  lemma HighMask(k: nat, i: nat)
    requires i < 64
    ensures Bit(Shl(ONES, k), i) <==> k <= i
  {
    BitShl(ONES, k, i);
    if k <= i {
      BitOnes(i - k);
    }
  }

  lemma LowMask(k: nat, i: nat)
    requires k <= 64 && i < 64
    ensures Bit(Shr(ONES, 64 - k), i) <==> i < k
  {
    BitShr(ONES, 64 - k, i);
    if i < k {
      BitOnes(i + 64 - k);
    } else {
      WordIsPow2();
      BitPastEnd(ONES, 64, i + 64 - k);
    }
  }

  lemma {:induction false} PlaceIsPow2(k: nat)
    requires k < 64
    ensures Shl(1, k) == Pow2(k) && Pow2(k) <= 0x8000_0000_0000_0000
  {
    if k > 0 {
      PlaceIsPow2(k - 1);
      PlaceBound(k);
    }
  }

  lemma {:induction false} PlaceBound(k: nat)
    requires k < 64
    ensures Pow2(k) <= 0x8000_0000_0000_0000
    decreases 63 - k
  {
    WordIsPow2();
    if k < 63 {
      PlaceBound(k + 1);
    }
  }

  // The bits of a number one less than a power of two.
  lemma {:induction false} BitPred(k: nat, i: nat)
    ensures Bit(Pow2(k) - 1, i) <==> i < k
    decreases k
  {
    if k == 0 {
      BitZero(i);
    } else if i > 0 {
      BitPred(k - 1, i - 1);
      assert (Pow2(k) - 1) / 2 == Pow2(k - 1) - 1;
    }
  }

  // ----- Find first set and find first zero: the contracts of the bsf instruction

  function FirstSetFrom(x: word, i: nat): (r: nat)
    requires i <= 64
    ensures i <= r <= 64
    ensures forall j :: i <= j < r ==> !Bit(x, j)
    ensures r < 64 ==> Bit(x, r)
    decreases 64 - i
  {
    if i == 64 || Bit(x, i) then i else FirstSetFrom(x, i + 1)
  }

  function Ffs(x: word): (r: nat)
    requires x != 0
    ensures r < 64 && Bit(x, r)
    ensures forall j :: 0 <= j < r ==> !Bit(x, j)
  {
    ZeroBits(x);
    FirstSetFrom(x, 0)
  }

  function Ffz(x: word): (r: nat)
    requires x != ONES
    ensures r < 64 && !Bit(x, r)
    ensures forall j :: 0 <= j < r ==> Bit(x, j)
  {
    FlipBits(x);
    Ffs(Not(x))
  }

  lemma FlipBits(x: word)
    ensures forall j :: 0 <= j < 64 ==> (Bit(Not(x), j) <==> !Bit(x, j))
  {
    forall j | 0 <= j < 64 ensures Bit(Not(x), j) <==> !Bit(x, j) {
      BitNot(x, j);
    }
  }
}
