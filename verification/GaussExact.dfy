/**
 In exact real arithmetic elimination solves the system it was given: the
 computed vector is its one and only solution.
 */
module GaussExact {
  import opened Gauss

  // Division by zero gives some value; the theorems exclude it where it matters.
  const REALS: Arith<real> := Arith((x, y) => x - y, (x, y) => x * y, (x, y) => if y == 0.0 then 0.0 else x / y)

  // The sum of u[j] * x[j] from j == i on.
  ghost function Dot(u: seq<real>, x: seq<real>, i: nat): real
    requires |u| == |x| && i <= |u|
    decreases |u| - i
  {
    if i == |u| then 0.0 else u[i] * x[i] + Dot(u, x, i + 1)
  }

  ghost predicate Solves(s: System<real>, n: nat, y: seq<real>)
    requires Square(s, n)
  {
    |y| == n && forall r :: 0 <= r < n ==> Dot(s.a[r], y, 0) == s.b[r]
  }

  // Column c is zero below the diagonal for all c < k.
  ghost predicate Cleared(s: System<real>, n: nat, k: nat)
    requires Square(s, n)
  {
    forall r, c :: 0 <= c < r < n && c < k ==> s.a[r][c] == 0.0
  }

  // The pivot of every phase, as it is when the phase begins.
  ghost predicate PivotsNonzero(s: System<real>, n: nat)
    requires Square(s, n)
  {
    forall k :: 0 <= k < n ==> Elim(REALS, s, n, k).a[k][k] != 0.0
  }

  // Dot is linear in its first argument.
  lemma {:induction false} DotLinear(row: seq<real>, pivot: seq<real>, m: real, e: seq<real>, x: seq<real>, i: nat)
    requires |row| == |pivot| == |e| == |x| && i <= |row|
    requires forall c :: 0 <= c < |row| ==> e[c] == row[c] - pivot[c] * m
    ensures Dot(e, x, i) == Dot(row, x, i) - m * Dot(pivot, x, i)
    decreases |row| - i
  {
    if i < |row| {
      DotLinear(row, pivot, m, e, x, i + 1);
      Distribute(row[i], pivot[i], m, x[i], Dot(row, x, i + 1), Dot(pivot, x, i + 1));
    }
  }

  lemma Distribute(a: real, p: real, m: real, x: real, u: real, v: real)
    ensures (a - p * m) * x + (u - m * v) == (a * x + u) - m * (p * x + v)
  {
  }

  // Row e is row less m times pivot, right-hand sides included.
  ghost predicate RowLess(row: seq<real>, b: real, pivot: seq<real>, bp: real, m: real, e: seq<real>, be: real) {
    && |row| == |pivot| == |e| && be == b - bp * m
    && forall c :: 0 <= c < |row| ==> e[c] == row[c] - pivot[c] * m
  }

  lemma DotLess(row: seq<real>, b: real, pivot: seq<real>, bp: real, m: real, e: seq<real>, be: real, y: seq<real>)
    requires RowLess(row, b, pivot, bp, m, e, be) && |y| == |row|
    ensures Dot(e, y, 0) == Dot(row, y, 0) - m * Dot(pivot, y, 0)
  {
    DotLinear(row, pivot, m, e, y, 0);
  }

  // Given the pivot equation, an eliminated equation says what the equation said.
  lemma SameEquation(d: real, b: real, dp: real, bp: real, m: real, de: real, be: real)
    requires dp == bp && de == d - m * dp && be == b - bp * m
    ensures d == b <==> de == be
  {
  }

  // s' is s with multiples of row norm subtracted from the rows below it.
  ghost predicate Reduces(s: System<real>, s': System<real>, n: nat, norm: nat) {
    && Square(s, n) && Square(s', n) && norm < n
    && (forall r :: 0 <= r <= norm ==> s'.a[r] == s.a[r] && s'.b[r] == s.b[r])
    && (forall r :: norm < r < n ==> RowReduced(s, s', norm, r))
  }

  ghost predicate RowReduced(s: System<real>, s': System<real>, norm: nat, r: nat)
    requires norm < |s.a| == |s.b| && r < |s.a| && |s'.a| == |s'.b| == |s.a|
  {
    exists m :: RowLess(s.a[r], s.b[r], s.a[norm], s.b[norm], m, s'.a[r], s'.b[r])
  }

  /** Reducing neither loses nor adds solutions. */
  lemma ReducesKeepsSolutions(s: System<real>, s': System<real>, n: nat, norm: nat, y: seq<real>)
    requires Reduces(s, s', n, norm)
    ensures Solves(s, n, y) <==> Solves(s', n, y)
  {
    if |y| == n && Dot(s.a[norm], y, 0) == s.b[norm] {
      forall r | norm < r < n ensures Dot(s.a[r], y, 0) == s.b[r] <==> Dot(s'.a[r], y, 0) == s'.b[r] {
        assert RowReduced(s, s', norm, r);
        var m :| RowLess(s.a[r], s.b[r], s.a[norm], s.b[norm], m, s'.a[r], s'.b[r]);
        DotLess(s.a[r], s.b[r], s.a[norm], s.b[norm], m, s'.a[r], s'.b[r], y);
        SameEquation(Dot(s.a[r], y, 0), s.b[r], Dot(s.a[norm], y, 0), s.b[norm], m, Dot(s'.a[r], y, 0), s'.b[r]);
      }
    }
  }

  // Elimination subtracts a multiple of the whole pivot row, which is zero left of the pivot.
  lemma ElimRowIs(s: System<real>, n: nat, norm: nat, r: nat)
    requires Square(s, n) && norm < r < n && forall c :: 0 <= c < norm ==> s.a[norm][c] == 0.0
    ensures RowLess(s.a[r], s.b[r], s.a[norm], s.b[norm], Multiplier(REALS, s.a[r], s.a[norm], norm),
                    ElimRow(REALS, s.a[r], s.a[norm], norm), ElimRhs(REALS, s, norm, r))
  {
    var row, pivot, m := s.a[r], s.a[norm], Multiplier(REALS, s.a[r], s.a[norm], norm);
    var e := ElimRow(REALS, row, pivot, norm);
    forall c | 0 <= c < n ensures e[c] == row[c] - pivot[c] * m {
      ElimColsAt(REALS, row, pivot, norm, m, n, c);
    }
  }

  lemma ElimRowClears(row: seq<real>, pivot: seq<real>, norm: nat)
    requires norm < |row| == |pivot| && pivot[norm] != 0.0
    ensures ElimRow(REALS, row, pivot, norm)[norm] == 0.0
    ensures forall c :: 0 <= c < norm ==> ElimRow(REALS, row, pivot, norm)[c] == row[c]
  {
    var m, e := Multiplier(REALS, row, pivot, norm), ElimRow(REALS, row, pivot, norm);
    ElimColsAt(REALS, row, pivot, norm, m, |row|, norm);
    assert e[norm] == row[norm] - pivot[norm] * (row[norm] / pivot[norm]);
    forall c | 0 <= c < norm ensures e[c] == row[c] {
      ElimColsAt(REALS, row, pivot, norm, m, |row|, c);
    }
  }

  lemma PhaseReduces(s: System<real>, n: nat, norm: nat)
    requires Square(s, n) && norm < n && Cleared(s, n, norm)
    ensures Reduces(s, PhaseTo(REALS, s, n, norm, n), n, norm)
  {
    var s' := PhaseTo(REALS, s, n, norm, n);
    forall r | 0 <= r < n
      ensures if r <= norm then s'.a[r] == s.a[r] && s'.b[r] == s.b[r] else RowReduced(s, s', norm, r)
    {
      PhaseRow(REALS, s, n, norm, n, r);
      if r > norm {
        ElimRowIs(s, n, norm, r);
      }
    }
  }

  lemma PhaseClears(s: System<real>, n: nat, norm: nat)
    requires Square(s, n) && norm < n && Cleared(s, n, norm) && s.a[norm][norm] != 0.0
    ensures Cleared(PhaseTo(REALS, s, n, norm, n), n, norm + 1)
  {
    var s' := PhaseTo(REALS, s, n, norm, n);
    forall r, c | 0 <= c < r < n && c < norm + 1 ensures s'.a[r][c] == 0.0 {
      PhaseRow(REALS, s, n, norm, n, r);
      if r > norm {
        ElimRowClears(s.a[r], s.a[norm], norm);
      }
    }
  }

  // ----- The whole elimination as a chain of reductions

  // Each system reduces its predecessor and has a nonzero pivot.
  ghost predicate Chain(ts: seq<System<real>>, n: nat) {
    && 0 < |ts| <= n + 1
    && (forall j :: 0 <= j < |ts| ==> Square(ts[j], n) && Cleared(ts[j], n, j))
    && (forall j :: 0 < j < |ts| ==> Reduces(ts[j - 1], ts[j], n, j - 1))
  }

  lemma {:induction false} ChainKeepsSolutions(ts: seq<System<real>>, n: nat, y: seq<real>)
    requires Chain(ts, n)
    ensures Solves(ts[0], n, y) <==> Solves(ts[|ts| - 1], n, y)
  {
    if |ts| > 1 {
      var k := |ts| - 1;
      ChainKeepsSolutions(ts[..k], n, y);
      ReducesKeepsSolutions(ts[k - 1], ts[k], n, k - 1, y);
    }
  }

  lemma ChainSnoc(ts: seq<System<real>>, t: System<real>, n: nat)
    requires Chain(ts, n) && |ts| <= n
    requires Reduces(ts[|ts| - 1], t, n, |ts| - 1) && Cleared(t, n, |ts|)
    ensures Chain(ts + [t], n)
  {
  }

  lemma {:induction false} ElimChain(s: System<real>, n: nat, k: nat) returns (ts: seq<System<real>>)
    requires Square(s, n) && k <= n && PivotsNonzero(s, n)
    ensures Chain(ts, n) && |ts| == k + 1 && ts[0] == s && ts[k] == Elim(REALS, s, n, k)
  {
    if k == 0 {
      ts := [s];
    } else {
      ts := ElimChain(s, n, k - 1);
      var t := ts[k - 1];
      var t' := NextPhase(s, n, k, t);
      ChainSnoc(ts, t', n);
      ts := ts + [t'];
    }
  }

  lemma NextPhase(s: System<real>, n: nat, k: nat, t: System<real>) returns (t': System<real>)
    requires Square(s, n) && 0 < k <= n && PivotsNonzero(s, n)
    requires t == Elim(REALS, s, n, k - 1) && Cleared(t, n, k - 1)
    ensures t' == Elim(REALS, s, n, k) && Reduces(t, t', n, k - 1) && Cleared(t', n, k)
  {
    t' := PhaseTo(REALS, t, n, k - 1, n);
    PhaseReduces(t, n, k - 1);
    PhaseClears(t, n, k - 1);
  }

  // ----- Back substitution

  lemma {:induction false} RemainderIsDot(row: seq<real>, rhs: real, y: seq<real>, i: nat, col: nat)
    requires |row| == |y| && i <= col <= |row|
    ensures Remainder(REALS, row, rhs, y[i..], col) == rhs - Dot(row, y, col)
    decreases |row| - col
  {
    if col < |row| {
      RemainderIsDot(row, rhs, y, i, col + 1);
    }
  }

  lemma {:induction false} DotSkipsZeros(row: seq<real>, y: seq<real>, i: nat, j: nat)
    requires |row| == |y| && i <= j <= |row| && forall c :: i <= c < j ==> row[c] == 0.0
    ensures Dot(row, y, i) == Dot(row, y, j)
    decreases j - i
  {
    if i < j {
      DotSkipsZeros(row, y, i + 1, j);
    }
  }

  lemma Quotient(d: real, a: real, x: real, e: real, b: real)
    requires a != 0.0 && d == a * x + e
    ensures d == b <==> x == (b - e) / a
  {
  }

  lemma DotHead(u: seq<real>, x: seq<real>, i: nat)
    requires |u| == |x| && i < |u|
    ensures Dot(u, x, i) == u[i] * x[i] + Dot(u, x, i + 1)
  {
  }

  lemma BackSubHead(s: System<real>, n: nat, y: seq<real>, i: nat)
    requires Square(s, n) && |y| == n && i < n && s.a[i][i] != 0.0
    requires y[i + 1..] == BackSub(REALS, s, n, i + 1)
    ensures BackSub(REALS, s, n, i) == [(s.b[i] - Dot(s.a[i], y, i + 1)) / s.a[i][i]] + y[i + 1..]
  {
    RemainderIsDot(s.a[i], s.b[i], y, i + 1, i + 1);
  }

  // Row i fixes unknown i once the later unknowns are right.
  lemma RowFixesUnknown(s: System<real>, n: nat, y: seq<real>, i: nat)
    requires Square(s, n) && |y| == n && i < n && Cleared(s, n, n) && s.a[i][i] != 0.0
    requires y[i + 1..] == BackSub(REALS, s, n, i + 1)
    ensures Dot(s.a[i], y, 0) == s.b[i] <==> y[i..] == BackSub(REALS, s, n, i)
  {
    DotSkipsZeros(s.a[i], y, 0, i);
    BackSubHead(s, n, y, i);
    DotHead(s.a[i], y, i);
    var x := (s.b[i] - Dot(s.a[i], y, i + 1)) / s.a[i][i];
    Quotient(Dot(s.a[i], y, 0), s.a[i][i], y[i], Dot(s.a[i], y, i + 1), s.b[i]);
    assert y[i..] == [y[i]] + y[i + 1..];
    assert y[i..] == [x] + y[i + 1..] <==> y[i] == x;
  }

  // The unknowns after the first.
  lemma BackSubTail(s: System<real>, n: nat, y: seq<real>, i: nat)
    requires Square(s, n) && |y| == n && i < n
    ensures y[i..] == BackSub(REALS, s, n, i) ==> y[i + 1..] == BackSub(REALS, s, n, i + 1)
  {
    assert y[i..][1..] == y[i + 1..];
    assert BackSub(REALS, s, n, i)[1..] == BackSub(REALS, s, n, i + 1);
  }

  lemma {:induction false} BackSubSolves(s: System<real>, n: nat, y: seq<real>, i: nat)
    requires Square(s, n) && |y| == n && i <= n && Cleared(s, n, n)
    requires forall k :: 0 <= k < n ==> s.a[k][k] != 0.0
    ensures (forall r :: i <= r < n ==> Dot(s.a[r], y, 0) == s.b[r]) <==> y[i..] == BackSub(REALS, s, n, i)
    decreases n - i
  {
    if i < n {
      BackSubSolves(s, n, y, i + 1);
      BackSubTail(s, n, y, i);
      if y[i + 1..] == BackSub(REALS, s, n, i + 1) {
        RowFixesUnknown(s, n, y, i);
      }
    }
  }

  /** If no pivot met is zero, the computed vector solves the original system and is the
      only vector that does. */
  lemma UniqueSolution(s: System<real>, n: nat, y: seq<real>)
    requires Square(s, n) && PivotsNonzero(s, n)
    ensures Solves(s, n, y) <==> y == Solution(REALS, s, n)
  {
    var k := if n == 0 then 0 else n - 1;
    var u := Forward(REALS, s, n);
    var ts := ElimChain(s, n, k);
    ChainKeepsSolutions(ts, n, y);
    assert Cleared(ts[k], n, k);
    assert Cleared(u, n, n);
    forall r | 0 <= r < n ensures u.a[r][r] != 0.0 {
      RowFrozen(REALS, s, n, k, r);
    }
    if |y| == n {
      BackSubSolves(u, n, y, 0);
      assert y[0..] == y;
    }
  }
}
