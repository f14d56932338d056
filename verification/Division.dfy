/** Quotients and remainders by a variable divisor. */
module Division {

  lemma MulMono(a: nat, b: nat, d: nat)
    ensures a <= b ==> a * d <= b * d
  {
  }

  lemma DivModUnique(x: nat, d: nat, q: nat, m: nat)
    requires d > 0 && m < d && x == q * d + m
    ensures q == x / d && m == x % d
  {
    var q', m' := x / d, x % d;
    assert x == q' * d + m';
    MulMono(q + 1, q', d);
    MulMono(q' + 1, q, d);
    assert (q + 1) * d == q * d + d && (q' + 1) * d == q' * d + d;
  }

  lemma SameRemainder(x: nat, x': nat, d: nat)
    requires d > 0 && x < x' && x % d == x' % d
    ensures x + d <= x'
  {
    var q, q', m := x / d, x' / d, x % d;
    assert x == q * d + m && x' == q' * d + m;
    MulMono(q', q, d);
    MulMono(q + 1, q', d);
    assert (q + 1) * d == q * d + d;
  }

  // The next number with the same remainder.
  lemma NextSameRemainder(x: nat, d: nat)
    requires d > 0
    ensures (x + d) % d == x % d
  {
    var q, m := x / d, x % d;
    assert x == q * d + m;
    assert (q + 1) * d == q * d + d;
    DivModUnique(x + d, d, q + 1, m);
  }

  lemma MultipleOfMultiple(x: nat, a: nat, b: nat)
    requires a > 0 && b > 0 && a * b > 0 && x % (a * b) == 0
    ensures x % a == 0
  {
    var q := x / (a * b);
    assert x == q * (a * b);
    assert q * (a * b) == (q * b) * a;
    DivModUnique(x, a, q * b, 0);
  }
}
