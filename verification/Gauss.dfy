/**
 Gaussian elimination with back substitution over arithmetic that is left
 uninterpreted: which operations are applied to which operands, in which order.
 */
module Gauss {

  datatype Arith<!F> = Arith(sub: (F, F) -> F, mul: (F, F) -> F, div: (F, F) -> F)

  datatype System<F> = System(a: seq<seq<F>>, b: seq<F>)

  // n equations in n unknowns.
  predicate Square<F>(s: System<F>, n: nat) {
    |s.a| == n && |s.b| == n && forall r :: 0 <= r < n ==> |s.a[r]| == n
  }

  // ----- Elimination

  function Multiplier<F>(ops: Arith<F>, row: seq<F>, pivot: seq<F>, norm: nat): F
    requires norm < |row| && norm < |pivot|
  {
    ops.div(row[norm], pivot[norm])
  }

  // Columns norm up to but not including col less m times the pivot row.
  function ElimCols<F>(ops: Arith<F>, row: seq<F>, pivot: seq<F>, norm: nat, m: F, col: nat): (r: seq<F>)
    requires norm <= col <= |row| == |pivot|
    ensures |r| == |row|
    decreases col
  {
    if col == norm then row
    else ElimCols(ops, row, pivot, norm, m, col - 1)[col - 1 := ops.sub(row[col - 1], ops.mul(pivot[col - 1], m))]
  }

  function ElimRow<F>(ops: Arith<F>, row: seq<F>, pivot: seq<F>, norm: nat): (r: seq<F>)
    requires norm < |row| == |pivot|
    ensures |r| == |row|
  {
    ElimCols(ops, row, pivot, norm, Multiplier(ops, row, pivot, norm), |row|)
  }

  function ElimRhs<F>(ops: Arith<F>, s: System<F>, norm: nat, row: nat): F
    requires norm < |s.a| == |s.b| && row < |s.a| && norm < |s.a[row]| && norm < |s.a[norm]|
  {
    ops.sub(s.b[row], ops.mul(s.b[norm], Multiplier(ops, s.a[row], s.a[norm], norm)))
  }

  // Rows norm + 1 up to but not including end are cleared in column norm.
  function PhaseTo<F>(ops: Arith<F>, s: System<F>, n: nat, norm: nat, end: nat): (s': System<F>)
    requires Square(s, n) && norm < end <= n
    ensures Square(s', n)
    decreases end
  {
    if end == norm + 1 then s
    else
      var t := PhaseTo(ops, s, n, norm, end - 1);
      System(t.a[end - 1 := ElimRow(ops, s.a[end - 1], s.a[norm], norm)],
             t.b[end - 1 := ElimRhs(ops, s, norm, end - 1)])
  }

  lemma {:induction false} ElimColsAt<F>(ops: Arith<F>, row: seq<F>, pivot: seq<F>, norm: nat, m: F, col: nat, j: nat)
    requires norm <= col <= |row| == |pivot| && j < |row|
    ensures ElimCols(ops, row, pivot, norm, m, col)[j]
         == if norm <= j < col then ops.sub(row[j], ops.mul(pivot[j], m)) else row[j]
    decreases col
  {
    if col > norm {
      ElimColsAt(ops, row, pivot, norm, m, col - 1, j);
    }
  }

  lemma {:induction false} PhaseRow<F>(ops: Arith<F>, s: System<F>, n: nat, norm: nat, end: nat, r: nat)
    requires Square(s, n) && norm < end <= n && r < n
    ensures var s' := PhaseTo(ops, s, n, norm, end);
      if norm < r < end then
        s'.a[r] == ElimRow(ops, s.a[r], s.a[norm], norm) && s'.b[r] == ElimRhs(ops, s, norm, r)
      else s'.a[r] == s.a[r] && s'.b[r] == s.b[r]
    decreases end
  {
    if end > norm + 1 {
      PhaseRow(ops, s, n, norm, end - 1, r);
    }
  }

  // The first k phases.
  function Elim<F>(ops: Arith<F>, s: System<F>, n: nat, k: nat): (s': System<F>)
    requires Square(s, n) && k <= n
    ensures Square(s', n)
  {
    if k == 0 then s else PhaseTo(ops, Elim(ops, s, n, k - 1), n, k - 1, n)
  }

  // ----- Back substitution

  // The right-hand side of a row less its terms in columns n-1 down to col, xs holding the
  // unknowns from column |row| - |xs| on.
  function Remainder<F>(ops: Arith<F>, row: seq<F>, rhs: F, xs: seq<F>, col: nat): F
    requires |row| - |xs| <= col <= |row|
    decreases |row| - col
  {
    if col == |row| then rhs
    else ops.sub(Remainder(ops, row, rhs, xs, col + 1), ops.mul(row[col], xs[col - (|row| - |xs|)]))
  }

  // The unknowns from row i on.
  function BackSub<F>(ops: Arith<F>, s: System<F>, n: nat, i: nat): (xs: seq<F>)
    requires Square(s, n) && i <= n
    ensures |xs| == n - i
    decreases n - i
  {
    if i == n then []
    else
      var xs := BackSub(ops, s, n, i + 1);
      [ops.div(Remainder(ops, s.a[i], s.b[i], xs, i + 1), s.a[i][i])] + xs
  }

  // Elimination runs n - 1 phases; with no equations it runs none.
  function Forward<F>(ops: Arith<F>, s: System<F>, n: nat): (s': System<F>)
    requires Square(s, n)
    ensures Square(s', n)
  {
    Elim(ops, s, n, if n == 0 then 0 else n - 1)
  }

  function Solution<F>(ops: Arith<F>, s: System<F>, n: nat): (xs: seq<F>)
    requires Square(s, n)
    ensures |xs| == n
  {
    BackSub(ops, Forward(ops, s, n), n, 0)
  }

  // A row is final once its own phase has begun.
  lemma {:induction false} RowFrozen<F>(ops: Arith<F>, s: System<F>, n: nat, k: nat, r: nat)
    requires Square(s, n) && r <= k < n
    ensures Elim(ops, s, n, k).a[r] == Elim(ops, s, n, r).a[r] && Elim(ops, s, n, k).b[r] == Elim(ops, s, n, r).b[r]
    decreases k
  {
    if r < k {
      RowFrozen(ops, s, n, k - 1, r);
      PhaseRow(ops, Elim(ops, s, n, k - 1), n, k - 1, n, r);
    }
  }
}
