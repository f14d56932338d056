/** Bytes and little-endian numbers. */
module Bytes {
  import opened Division

  type byte = x: int | 0 <= x < 256

  function Pow256(k: nat): (p: nat)
    ensures p > 0
  {
    if k == 0 then 1 else 256 * Pow256(k - 1)
  }

  function Le(x: nat, k: nat): (bs: seq<byte>)
    ensures |bs| == k
  {
    if k == 0 then [] else [x % 256] + Le(x / 256, k - 1)
  }

  function FromLe(bs: seq<byte>): nat {
    if bs == [] then 0 else bs[0] + 256 * FromLe(bs[1..])
  }

  /** Byte i is the i-th digit to base 256, lowest first. */
  lemma {:induction false} LeAt(x: nat, k: nat, i: nat)
    requires i < k
    ensures Le(x, k)[i] == x / Pow256(i) % 256
  {
    if i > 0 {
      LeAt(x / 256, k - 1, i - 1);
      DivideTwice(x, Pow256(i - 1));
    }
  }

  lemma DivideTwice(x: nat, p: nat)
    requires p > 0
    ensures x / 256 / p == x / (256 * p)
  {
    var q, m := x / 256 / p, x / 256 % p;
    assert x / 256 == q * p + m;
    assert q * (256 * p) == 256 * (q * p);
    DivModUnique(x, 256 * p, q, 256 * m + x % 256);
  }

  lemma {:induction false} LeRoundTrip(x: nat, k: nat)
    requires x < Pow256(k)
    ensures FromLe(Le(x, k)) == x
  {
    if k > 0 {
      LeRoundTrip(x / 256, k - 1);
      assert Le(x, k)[1..] == Le(x / 256, k - 1);
    }
  }
}
