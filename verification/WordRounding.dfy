/**
 Masking off the low bits of a word is rounding down to a multiple of a power of two.
 */
module WordRounding {
  import opened BitWords
  import opened Division

  lemma {:induction false} AndOnesNat(x: nat, n: nat)
    requires x < Pow2(n)
    ensures AndNat(x, Pow2(n) - 1) == x
    decreases n
  {
    if x > 0 {
      AndOnesNat(x / 2, n - 1);
      assert (Pow2(n) - 1) / 2 == Pow2(n - 1) - 1;
    }
  }

  // y with its low k bits cleared.
  function RoundDown(y: nat, k: nat): nat { if k == 0 then y else 2 * RoundDown(y / 2, k - 1) }

  function Quotient(y: nat, k: nat): nat { if k == 0 then y else Quotient(y / 2, k - 1) }

  lemma {:induction false} AndRoundsDown(y: nat, k: nat, n: nat)
    requires k <= n && y < Pow2(n) && Pow2(k) <= Pow2(n)
    ensures AndNat(y, Pow2(n) - Pow2(k)) == RoundDown(y, k)
    decreases k
  {
    if k == 0 {
      AndOnesNat(y, n);
    } else {
      AndRoundsDown(y / 2, k - 1, n - 1);
      assert (Pow2(n) - Pow2(k)) / 2 == Pow2(n - 1) - Pow2(k - 1);
    }
  }

  lemma {:induction false} RoundDownIs(y: nat, k: nat)
    ensures RoundDown(y, k) <= y < RoundDown(y, k) + Pow2(k)
  {
    if k > 0 {
      RoundDownIs(y / 2, k - 1);
    }
  }

  lemma {:induction false} RoundDownIsMultiple(y: nat, k: nat)
    ensures RoundDown(y, k) == Quotient(y, k) * Pow2(k)
  {
    if k > 0 {
      RoundDownIsMultiple(y / 2, k - 1);
      TwiceProduct(Quotient(y / 2, k - 1), Pow2(k - 1));
    }
  }

  lemma TwiceProduct(q: nat, p: nat)
    ensures 2 * (q * p) == q * (2 * p)
  {
  }

  lemma {:induction false} Pow2Mono(k: nat, n: nat)
    requires k <= n
    ensures Pow2(k) <= Pow2(n)
    decreases n - k
  {
    if k < n {
      Pow2Mono(k + 1, n);
    }
  }

  lemma RoundDownWords(x: nat)
    ensures RoundDown(x, 6) == x - x % 64
  {
    SixIs64();
    RoundDownIs(x, 6);
    RoundDownIsMultiple(x, 6);
    DivModUnique(x, 64, Quotient(x, 6), x - RoundDown(x, 6));
  }

  lemma SixIs64()
    ensures Pow2(6) == 64
  {
    assert Pow2(3) == 8 && Pow2(6) == 8 * Pow2(3);
  }

  /** x & ~(BITS_PER_LONG - 1): the bits of whole words. */
  method WholeWords(x: word) returns (r: word)
    ensures r == x - x % 64
  {
    WordIsPow2();
    SixIs64();
    AndRoundsDown(x, 6, 64);
    RoundDownWords(x);
    r := And(x, Not(63));
  }
}
