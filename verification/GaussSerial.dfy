/**
 The serial program on arrays: elimination and back substitution in place, and
 the copy that restores the inputs.
 */
module GaussSerial {
  import opened Gauss
  import opened GaussExact

  // The N by N corner of A, and the first N entries of B, as a system.
  ghost function RowOf<F>(A: array2<F>, N: nat, r: nat): (row: seq<F>)
    requires N <= A.Length1 && r < A.Length0
    reads A
    ensures |row| == N && forall c :: 0 <= c < N ==> row[c] == A[r, c]
  {
    seq(N, c requires 0 <= c < N reads A => A[r, c])
  }

  ghost function Window<F>(A: array2<F>, B: array<F>, N: nat): (s: System<F>)
    requires Fits(A, B, N)
    reads A, B
    ensures Square(s, N) && s.b == B[..N]
    ensures forall r :: 0 <= r < N ==> s.a[r] == RowOf(A, N, r)
  {
    System(seq(N, r requires 0 <= r < N reads A => RowOf(A, N, r)), B[..N])
  }

  predicate Fits<F>(A: array2<F>, B: array<F>, N: nat) {
    N <= A.Length0 && N <= A.Length1 && N <= B.Length
  }

  // The corner holds the system s.
  ghost predicate Shows<F>(A: array2<F>, B: array<F>, N: nat, s: System<F>)
    requires Fits(A, B, N)
    reads A, B
  {
    && Square(s, N)
    && (forall r, c :: 0 <= r < N && 0 <= c < N ==> A[r, c] == s.a[r][c])
    && (forall r :: 0 <= r < N ==> B[r] == s.b[r])
  }

  lemma ShowsWindow<F>(A: array2<F>, B: array<F>, N: nat, s: System<F>)
    requires Fits(A, B, N)
    ensures Shows(A, B, N, s) <==> Window(A, B, N) == s
  {
    var w := Window(A, B, N);
    if Shows(A, B, N, s) {
      forall r | 0 <= r < N ensures w.a[r] == s.a[r] {
        assert w.a[r] == RowOf(A, N, r);
      }
      assert w.a == s.a && w.b == s.b;
    }
  }

  // The system with row `row` eliminated.
  ghost function WithRow<F>(ops: Arith<F>, s: System<F>, n: nat, norm: nat, row: nat): (s': System<F>)
    requires Square(s, n) && norm < row < n
    ensures Square(s', n)
  {
    System(s.a[row := ElimRow(ops, s.a[row], s.a[norm], norm)], s.b[row := ElimRhs(ops, s, norm, row)])
  }

  // One row of A less a multiple of the pivot row.
  method EliminateCols<F>(ops: Arith<F>, N: nat, A: array2<F>, norm: nat, row: nat, multiplier: F,
                          ghost line: seq<F>, ghost pivot: seq<F>)
    requires norm < row < N <= A.Length0 && N <= A.Length1 && |line| == |pivot| == N
    requires forall c :: 0 <= c < N ==> A[row, c] == line[c] && A[norm, c] == pivot[c]
    modifies A
    ensures forall c :: 0 <= c < N ==> A[row, c] == ElimCols(ops, line, pivot, norm, multiplier, N)[c]
    ensures forall r, c :: 0 <= r < A.Length0 && 0 <= c < A.Length1 && (r != row || c >= N) ==> A[r, c] == old(A[r, c])
  {
    var col := norm;
    while col < N
      invariant norm <= col <= N
      invariant forall r, c :: 0 <= r < A.Length0 && 0 <= c < A.Length1 && (r != row || c >= N) ==>
        A[r, c] == old(A[r, c])
      invariant forall c :: 0 <= c < N ==> A[row, c] == ElimCols(ops, line, pivot, norm, multiplier, col)[c]
    {
      ElimColsAt(ops, line, pivot, norm, multiplier, col, col);
      A[row, col] := ops.sub(A[row, col], ops.mul(A[norm, col], multiplier));
      col := col + 1;
    }
  }

  method EliminateRow<F>(ops: Arith<F>, N: nat, A: array2<F>, B: array<F>, norm: nat, row: nat, ghost s: System<F>)
    requires Fits(A, B, N) && norm < row < N && Shows(A, B, N, s)
    modifies A, B
    ensures Shows(A, B, N, WithRow(ops, s, N, norm, row))
    ensures forall r, c :: 0 <= r < A.Length0 && 0 <= c < A.Length1 && (r >= N || c >= N) ==> A[r, c] == old(A[r, c])
    ensures B[N..] == old(B[N..])
  {
    var multiplier := ops.div(A[row, norm], A[norm, norm]);
    EliminateCols(ops, N, A, norm, row, multiplier, s.a[row], s.a[norm]);
    B[row] := ops.sub(B[row], ops.mul(B[norm], multiplier));
  }

  // One more row takes the phase one row further.
  lemma PhaseExtend<F>(ops: Arith<F>, t: System<F>, n: nat, norm: nat, row: nat)
    requires Square(t, n) && norm < row < n
    ensures WithRow(ops, PhaseTo(ops, t, n, norm, row), n, norm, row) == PhaseTo(ops, t, n, norm, row + 1)
  {
    PhaseRow(ops, t, n, norm, row, row);
    PhaseRow(ops, t, n, norm, row, norm);
  }

  method RunPhase<F>(ops: Arith<F>, N: nat, A: array2<F>, B: array<F>, norm: nat, ghost t: System<F>)
    requires Fits(A, B, N) && norm < N && Shows(A, B, N, t)
    modifies A, B
    ensures Shows(A, B, N, PhaseTo(ops, t, N, norm, N))
  {
    var row := norm + 1;
    while row < N
      invariant norm < row <= N
      invariant Shows(A, B, N, PhaseTo(ops, t, N, norm, row))
    {
      PhaseExtend(ops, t, N, norm, row);
      EliminateRow(ops, N, A, B, norm, row, PhaseTo(ops, t, N, norm, row));
      row := row + 1;
    }
  }

  /** Elimination runs the phases one after the other. */
  method Eliminate<F>(ops: Arith<F>, N: nat, A: array2<F>, B: array<F>, ghost s: System<F>)
    requires Fits(A, B, N) && Shows(A, B, N, s)
    modifies A, B
    ensures Shows(A, B, N, Forward(ops, s, N))
  {
    var norm := 0;
    while norm < N - 1
      invariant 0 <= norm && (N > 0 ==> norm <= N - 1) && (N == 0 ==> norm == 0)
      invariant Shows(A, B, N, Elim(ops, s, N, norm))
    {
      RunPhase(ops, N, A, B, norm, Elim(ops, s, N, norm));
      norm := norm + 1;
    }
  }

  // Unknown `row` from the later ones.
  method SolveRow<F>(ops: Arith<F>, N: nat, A: array2<F>, B: array<F>, X: array<F>, row: nat, ghost s: System<F>)
    requires Fits(A, B, N) && row < N <= X.Length && X != B && Shows(A, B, N, s)
    modifies X
    ensures X[row + 1..N] == old(X[row + 1..N])
    ensures X[row] == ops.div(Remainder(ops, s.a[row], s.b[row], X[row + 1..N], row + 1), s.a[row][row])
  {
    ghost var xs := X[row + 1..N];
    X[row] := B[row];
    var col := N - 1;
    while col > row
      invariant row <= col < N
      invariant X[row + 1..N] == xs
      invariant X[row] == Remainder(ops, s.a[row], s.b[row], xs, col + 1)
    {
      assert X[col] == xs[col - (row + 1)];
      X[row] := ops.sub(X[row], ops.mul(A[row, col], X[col]));
      col := col - 1;
    }
    X[row] := ops.div(X[row], A[row, row]);
  }

  // The unknowns from row i on.
  ghost predicate Solved<F>(ops: Arith<F>, xs: seq<F>, s: System<F>, n: nat, i: nat) {
    Square(s, n) && i <= n <= |xs| && xs[i..n] == BackSub(ops, s, n, i)
  }

  method SolveNext<F>(ops: Arith<F>, N: nat, A: array2<F>, B: array<F>, X: array<F>, row: nat, ghost s: System<F>)
    requires Fits(A, B, N) && row < N <= X.Length && X != B && Shows(A, B, N, s)
    requires Solved(ops, X[..], s, N, row + 1)
    modifies X
    ensures Solved(ops, X[..], s, N, row)
  {
    SolveRow(ops, N, A, B, X, row, s);
    assert X[row..N] == [X[row]] + X[row + 1..N];
  }

  /** Back substitution from the last row up. */
  method BackSubstitute<F>(ops: Arith<F>, N: nat, A: array2<F>, B: array<F>, X: array<F>, ghost s: System<F>)
    requires Fits(A, B, N) && N <= X.Length && X != B && Shows(A, B, N, s)
    modifies X
    ensures X[..N] == BackSub(ops, s, N, 0)
  {
    var row := N - 1;
    while row >= 0
      invariant -1 <= row < N
      invariant Solved(ops, X[..], s, N, row + 1)
    {
      SolveNext(ops, N, A, B, X, row, s);
      row := row - 1;
    }
  }

  method SerialGauss<F>(ops: Arith<F>, N: nat, A: array2<F>, B: array<F>, X: array<F>)
    requires Fits(A, B, N) && N <= X.Length && X != B
    modifies A, B, X
    ensures Window(A, B, N) == Forward(ops, old(Window(A, B, N)), N)
    ensures X[..N] == Solution(ops, old(Window(A, B, N)), N)
  {
    ghost var s := Window(A, B, N);
    ShowsWindow(A, B, N, s);
    Eliminate(ops, N, A, B, s);
    ShowsWindow(A, B, N, Forward(ops, s, N));
    BackSubstitute(ops, N, A, B, X, Forward(ops, s, N));
  }

  /** The inputs as first drawn, copied over what a run has left in A and B; X is zeroed. */
  method ResetInputs<F>(N: nat, ORA: array2<F>, ORB: array<F>, zero: F, A: array2<F>, B: array<F>, X: array<F>)
    requires Fits(ORA, ORB, N) && Fits(A, B, N) && N <= X.Length
    requires ORA != A && ORB != B && ORB != X && B != X
    modifies A, B, X
    ensures Window(A, B, N) == Window(ORA, ORB, N)
    ensures forall i :: 0 <= i < N ==> X[i] == zero
  {
    var col := 0;
    while col < N
      invariant 0 <= col <= N
      invariant forall r, c :: 0 <= r < N && 0 <= c < col ==> A[r, c] == ORA[r, c]
      invariant forall i :: 0 <= i < col ==> B[i] == ORB[i] && X[i] == zero
    {
      var row := 0;
      while row < N
        invariant 0 <= row <= N
        invariant forall r, c :: 0 <= r < N && 0 <= c < col ==> A[r, c] == ORA[r, c]
        invariant forall r :: 0 <= r < row ==> A[r, col] == ORA[r, col]
        invariant forall i :: 0 <= i < col ==> B[i] == ORB[i] && X[i] == zero
      {
        A[row, col] := ORA[row, col];
        row := row + 1;
      }
      B[col], X[col] := ORB[col], zero;
      col := col + 1;
    }
    assert B[..N] == ORB[..N];
    forall r | 0 <= r < N ensures RowOf(A, N, r) == RowOf(ORA, N, r) {
    }
  }

  /** In exact arithmetic the program solves the system it was reset to, and nothing else does. */
  method SolveExactly(N: nat, ORA: array2<real>, ORB: array<real>, A: array2<real>, B: array<real>, X: array<real>)
    requires Fits(ORA, ORB, N) && Fits(A, B, N) && N <= X.Length
    requires ORA != A && ORB != B && ORB != X && B != X
    modifies A, B, X
    ensures PivotsNonzero(Window(ORA, ORB, N), N) ==>
      forall y :: Solves(Window(ORA, ORB, N), N, y) <==> y == X[..N]
  {
    ResetInputs(N, ORA, ORB, 0.0, A, B, X);
    ghost var s := Window(ORA, ORB, N);
    SerialGauss(REALS, N, A, B, X);
    if PivotsNonzero(s, N) {
      forall y ensures Solves(s, N, y) <==> y == X[..N] {
        UniqueSolution(s, N, y);
      }
    }
  }
}
