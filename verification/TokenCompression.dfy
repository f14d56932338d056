/**
 Byte pairs of symbols, on values: how often a pair occurs, and what is left after
 it has been replaced by a code.
 */
module TokenCompression {
  import opened Bytes

  // ----- Pairs of adjacent bytes

  const PAIRS := 0x10000

  function Key(a: byte, b: byte): (k: nat)
    ensures k < PAIRS && k % 256 == a && k / 256 == b
  {
    a + 256 * b
  }

  // How often the pair with key k occurs in s, overlaps included.
  function Occ(s: seq<byte>, k: nat): nat {
    if |s| < 2 then 0 else (if Key(s[0], s[1]) == k then 1 else 0) + Occ(s[1..], k)
  }

  function Total(syms: seq<seq<byte>>, k: nat): nat {
    if syms == [] then 0 else Occ(syms[0], k) + Total(syms[1..], k)
  }

  // Left-to-right, non-overlapping replacement of the pair k by the code c.
  function Subst(s: seq<byte>, k: nat, c: byte): (r: seq<byte>)
    ensures |r| <= |s|
  {
    if |s| < 2 then s
    else if Key(s[0], s[1]) == k then [c] + Subst(s[2..], k, c)
    else [s[0]] + Subst(s[1..], k, c)
  }

  function SubstAll(syms: seq<seq<byte>>, k: nat, c: byte): (r: seq<seq<byte>>)
    ensures |r| == |syms|
    ensures forall i :: 0 <= i < |syms| ==> r[i] == Subst(syms[i], k, c)
  {
    seq(|syms|, i requires 0 <= i < |syms| => Subst(syms[i], k, c))
  }

  lemma {:induction false} TotalUpdate(syms: seq<seq<byte>>, i: nat, s: seq<byte>, k: nat)
    requires i < |syms|
    ensures Total(syms[i := s], k) + Occ(syms[i], k) == Total(syms, k) + Occ(s, k)
  {
    if i == 0 {
      assert syms[0 := s][1..] == syms[1..];
    } else {
      assert syms[i := s][1..] == syms[1..][i - 1 := s];
      TotalUpdate(syms[1..], i - 1, s, k);
    }
  }

  lemma {:induction false} TotalAppend(syms: seq<seq<byte>>, s: seq<byte>, k: nat)
    ensures Total(syms + [s], k) == Total(syms, k) + Occ(s, k)
  {
    if syms == [] {
      assert [] + [s] == [s];
      assert [s][1..] == [];
    } else {
      assert (syms + [s])[1..] == syms[1..] + [s];
      TotalAppend(syms[1..], s, k);
    }
  }

  lemma {:induction false} OccSnoc(s: seq<byte>, x: byte, k: nat)
    ensures Occ(s + [x], k) == Occ(s, k) + (if s != [] && Key(s[|s| - 1], x) == k then 1 else 0)
  {
    if |s| > 1 {
      assert (s + [x])[1..] == s[1..] + [x];
      OccSnoc(s[1..], x, k);
    } else if |s| == 1 {
      assert (s + [x])[1..] == [x];
    }
  }

  predicate StartsAt(s: seq<byte>, k: nat, i: nat) {
    i + 1 < |s| && Key(s[i], s[i + 1]) == k
  }

  // Where the pair k starts in s.
  ghost function Places(s: seq<byte>, k: nat): set<nat> {
    set i: nat | i < |s| && StartsAt(s, k, i)
  }

  /** The count is the number of places at which the pair starts. */
  lemma {:induction false} OccIsCount(s: seq<byte>, k: nat)
    ensures Occ(s, k) == |Places(s, k)|
  {
    if s == [] {
      assert Places(s, k) == {};
    } else {
      var n := |s| - 1;
      var t := s[..n];
      OccIsCount(t, k);
      assert t + [s[n]] == s;
      OccSnoc(t, s[n], k);
      var last := if n > 0 && StartsAt(s, k, n - 1) then {n - 1} else {};
      assert Places(s, k) == Places(t, k) + last;
    }
  }

  lemma {:induction false} OccPositive(s: seq<byte>, k: nat)
    ensures Occ(s, k) > 0 <==> exists i :: 0 <= i < |s| - 1 && Key(s[i], s[i + 1]) == k
  {
    if |s| >= 2 {
      OccPositive(s[1..], k);
      if i :| 0 <= i < |s| - 1 && Key(s[i], s[i + 1]) == k {
        assert i > 0 ==> Key(s[1..][i - 1], s[1..][i]) == k;
      }
      if i :| 0 <= i < |s[1..]| - 1 && Key(s[1..][i], s[1..][i + 1]) == k {
        assert Key(s[i + 1], s[i + 2]) == k;
      }
    }
  }

  lemma {:induction false} TotalPositive(syms: seq<seq<byte>>, k: nat)
    ensures Total(syms, k) > 0 <==> exists i :: 0 <= i < |syms| && Occ(syms[i], k) > 0
  {
    if syms != [] {
      TotalPositive(syms[1..], k);
      if i :| 0 <= i < |syms| && Occ(syms[i], k) > 0 {
        assert i > 0 ==> Occ(syms[1..][i - 1], k) > 0;
      }
      if i :| 0 <= i < |syms[1..]| && Occ(syms[1..][i], k) > 0 {
        assert Occ(syms[i + 1], k) > 0;
      }
    }
  }

  // Nothing to replace, nothing changes.
  lemma {:induction false} SubstAbsent(s: seq<byte>, k: nat, c: byte)
    requires Occ(s, k) == 0
    ensures Subst(s, k, c) == s
  {
    if |s| >= 2 {
      SubstAbsent(s[1..], k, c);
    }
  }

  // Replacement up to the first occurrence at p.
  lemma {:induction false} SubstFirst(s: seq<byte>, k: nat, c: byte, p: nat)
    requires p + 1 < |s| && Key(s[p], s[p + 1]) == k
    requires forall i :: 0 <= i < p ==> Key(s[i], s[i + 1]) != k
    ensures Subst(s, k, c) == s[..p] + [c] + Subst(s[p + 2..], k, c)
  {
    if p == 0 {
      assert s[..0] + [c] == [c];
    } else {
      var t := s[1..];
      forall i | 0 <= i < p - 1 ensures Key(t[i], t[i + 1]) != k {
        assert Key(s[i + 1], s[i + 2]) != k;
      }
      SubstFirst(t, k, c, p - 1);
      var rest := Subst(s[p + 2..], k, c);
      assert t[p - 1 + 2..] == s[p + 2..];
      assert s[..p] == [s[0]] + t[..p - 1];
      assert [s[0]] + (t[..p - 1] + [c] + rest) == s[..p] + [c] + rest;
    }
  }

  /** A fresh code leaves no occurrence of the pair it replaces. */
  lemma {:induction false} SubstRemovesPair(s: seq<byte>, k: nat, c: byte)
    requires c != k % 256 && c != k / 256
    ensures Occ(Subst(s, k, c), k) == 0
  {
    if |s| >= 2 {
      if Key(s[0], s[1]) == k {
        SubstRemovesPair(s[2..], k, c);
        OccCons(c, Subst(s[2..], k, c), k);
      } else {
        SubstRemovesPair(s[1..], k, c);
        OccCons(s[0], Subst(s[1..], k, c), k);
      }
    }
  }

  lemma OccCons(x: byte, s: seq<byte>, k: nat)
    ensures Occ([x] + s, k) == (if s != [] && Key(x, s[0]) == k then 1 else 0) + Occ(s, k)
  {
    assert ([x] + s)[1..] == s;
  }

  /** Replacement creates no occurrence of a pair that does not use the new code. */
  lemma {:induction false} SubstCreatesNothing(s: seq<byte>, k: nat, c: byte, j: nat)
    requires c != j % 256 && c != j / 256
    ensures Occ(Subst(s, k, c), j) <= Occ(s, j)
  {
    if |s| >= 2 {
      if Key(s[0], s[1]) == k {
        SubstCreatesNothing(s[2..], k, c, j);
        OccCons(c, Subst(s[2..], k, c), j);
        assert Occ(s[2..], j) <= Occ(s[1..], j) by {
          if |s[1..]| >= 2 {
            assert s[1..][1..] == s[2..];
          }
        }
      } else {
        SubstCreatesNothing(s[1..], k, c, j);
        OccCons(s[0], Subst(s[1..], k, c), j);
      }
    }
  }

  lemma {:induction false} TotalAfterSubst(syms: seq<seq<byte>>, k: nat, c: byte, j: nat)
    requires c != j % 256 && c != j / 256
    ensures Total(SubstAll(syms, k, c), j) <= Total(syms, j)
    ensures j == k ==> Total(SubstAll(syms, k, c), j) == 0
  {
    if syms != [] {
      assert SubstAll(syms, k, c)[1..] == SubstAll(syms[1..], k, c);
      TotalAfterSubst(syms[1..], k, c, j);
      SubstCreatesNothing(syms[0], k, c, j);
      if j == k {
        SubstRemovesPair(syms[0], k, c);
      }
    }
  }
}
