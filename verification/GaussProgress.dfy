/**
 How long the parallel elimination can go on: every step that changes the state
 uses up work, of which there is a fixed amount.
 */
module GaussProgress {
  import opened Gauss
  import opened GaussParallel
  import GaussSerial

  // a times b, as repeated addition.
  function Times(a: nat, b: nat): nat {
    if a == 0 then 0 else Times(a - 1, b) + b
  }

  lemma {:induction false} TimesLess(a: nat, a': nat, b: nat)
    requires a < a'
    ensures Times(a, b) + b <= Times(a', b)
    decreases a'
  {
    if a < a' - 1 {
      TimesLess(a, a' - 1, b);
    }
  }

  lemma {:induction false} TimesIs(a: nat, b: nat)
    ensures Times(a, b) == a * b
  {
    if a > 0 {
      TimesIs(a - 1, b);
      assert a * b == (a - 1) * b + b;
    }
  }

  // More than the accesses of one row, and more than those of one phase.
  function RowCost(n: nat): nat { 3 * n + 10 }

  function PhaseCost(n: nat): nat { Times(n, RowCost(n)) + 2 }

  // Accesses left in the current row.
  function InRow<F>(n: nat, th: Thread<F>): (w: nat)
    ensures w < RowCost(n)
  {
    var cols := if th.col < n then 3 * (n - th.col) else 0;
    match th.pc
    case LoadNum => 3 * n + 9
    case LoadPivot(_) => 3 * n + 8
    case LoadPivotCol(_) => cols + 5
    case LoadCol(_, _) => cols + 4
    case StoreCol(_, _) => cols + 3
    case LoadPivotRhs(_) => 4
    case LoadRhs(_, _) => 3
    case StoreRhs(_, _) => 2
    case _ => 0
  }

  // Accesses left in the rows of the current phase from row on, and the barrier that ends it.
  function InPhase<F>(n: nat, th: Thread<F>): nat {
    if th.pc.AtBarrier? || th.row >= n then 1 else 1 + Times(n - 1 - th.row, RowCost(n)) + InRow(n, th)
  }

  function Todo<F>(n: nat, th: Thread<F>): nat {
    if th.pc.Finished? || th.norm >= End(n) then 0 else Times(End(n) - th.norm - 1, PhaseCost(n)) + InPhase(n, th)
  }

  lemma PhaseLeft<F>(n: nat, th: Thread<F>)
    ensures 1 <= InPhase(n, th) < PhaseCost(n)
  {
    if th.row < n {
      TimesLess(n - 1 - th.row, n, RowCost(n));
    }
  }

  // Beginning the next phase uses up the barrier.
  lemma BeginTodo<F>(n: nat, norm: nat, t: nat)
    requires norm < End(n)
    ensures Todo<F>(n, Begin(n, norm + 1, t)) < Times(End(n) - norm - 1, PhaseCost(n)) + 1
  {
    var th: Thread<F> := Begin(n, norm + 1, t);
    PhaseLeft(n, th);
  }

  lemma NextRowTodo<F>(n: nat, procs: nat, th: Thread<F>)
    requires procs > 0 && th.pc.StoreRhs? && th.row < n && th.norm < End(n)
    ensures Todo(n, NextRow(n, procs, th)) < Todo(n, th)
  {
    if th.row + procs < n {
      TimesLess(n - 1 - (th.row + procs), n - 1 - th.row, RowCost(n));
    }
  }

  // A thread that is not done is in a phase that runs.
  predicate Live<F>(n: nat, th: Thread<F>) { th.pc.Finished? || th.norm < End(n) }

  lemma AllLive<F>(ops: Arith<F>, l: System<F>, n: nat, procs: nat, k: nat, s: State<F>, t: nat)
    requires Snapshot(ops, l, n, procs, k, s) && t < procs
    ensures Live(n, s.threads[t])
  {
    assert ThreadOk(ops, l, n, procs, k, t, s.threads[t]);
  }

  // A step changes only the thread that takes it, and a step that changes anything uses up work.
  lemma StepTodo<F>(ops: Arith<F>, n: nat, s: State<F>, t: nat)
    requires Square(s.mem, n) && t < |s.threads| && InBounds(n, s.threads[t]) && Live(n, s.threads[t])
    ensures var s' := Step(ops, n, s, t);
      && |s'.threads| == |s.threads| && s'.threads == s.threads[t := s'.threads[t]]
      && (s' != s ==> Todo(n, s'.threads[t]) < Todo(n, s.threads[t]))
  {
    var th := s.threads[t];
    if th.pc.AtBarrier? {
      BeginTodo<F>(n, th.norm, t);
    } else if th.pc.StoreRhs? {
      NextRowTodo(n, |s.threads|, th);
    }
  }

  // ----- All threads

  function TodoAll<F>(n: nat, ths: seq<Thread<F>>): nat {
    if ths == [] then 0 else Todo(n, ths[0]) + TodoAll(n, ths[1..])
  }

  lemma {:induction false} TodoUpdate<F>(n: nat, ths: seq<Thread<F>>, t: nat, th: Thread<F>)
    requires t < |ths|
    ensures TodoAll(n, ths[t := th]) + Todo(n, ths[t]) == TodoAll(n, ths) + Todo(n, th)
  {
    if t > 0 {
      assert ths[t := th][1..] == ths[1..][t - 1 := th];
      TodoUpdate(n, ths[1..], t - 1, th);
    } else {
      assert ths[0 := th][1..] == ths[1..];
    }
  }

  lemma TodoBound<F>(n: nat, th: Thread<F>)
    ensures Todo(n, th) <= Times(n, PhaseCost(n))
  {
    if th.norm < End(n) {
      PhaseLeft(n, th);
      TimesLess(End(n) - th.norm - 1, n, PhaseCost(n));
    }
  }

  lemma {:induction false} TodoAllBound<F>(n: nat, ths: seq<Thread<F>>)
    ensures TodoAll(n, ths) <= Times(|ths|, Times(n, PhaseCost(n)))
  {
    if ths != [] {
      TodoBound(n, ths[0]);
      TodoAllBound(n, ths[1..]);
    }
  }

  // ----- Runs

  // Steps of a run that change the state.
  ghost function Useful<F>(tr: Trace<F>): nat {
    match tr
    case Start(_) => 0
    case Then(prev, _, s) => Useful(prev) + if s != Last(prev) then 1 else 0
  }

  lemma WorkStep<F>(ops: Arith<F>, l: System<F>, n: nat, procs: nat, k: nat, s: State<F>, t: nat)
    requires Snapshot(ops, l, n, procs, k, s) && t < procs && InBounds(n, s.threads[t])
    ensures var s' := Step(ops, n, s, t);
      |s'.threads| == procs && TodoAll(n, s'.threads) + (if s' != s then 1 else 0) <= TodoAll(n, s.threads)
  {
    AllLive(ops, l, n, procs, k, s, t);
    StepTodo(ops, n, s, t);
    TodoUpdate(n, s.threads, t, Step(ops, n, s, t).threads[t]);
  }

  lemma {:induction false} WorkLeft<F>(ops: Arith<F>, n: nat, procs: nat, s0: System<F>, tr: Trace<F>)
    requires Square(s0, n) && procs > 0 && IsRun(ops, n, procs, s0, tr)
    ensures Useful(tr) + TodoAll(n, Last(tr).threads) <= Times(procs, Times(n, PhaseCost(n)))
    decreases tr
  {
    match tr
    case Start(s) => TodoAllBound(n, s.threads);
    case Then(prev, t, s) =>
      WorkLeft(ops, n, procs, s0, prev);
      var k := RunInvariant(ops, n, procs, s0, prev);
      WorkStep(ops, Elim(ops, s0, n, k), n, procs, k, Last(prev), t);
  }

  lemma Budget(n: nat, procs: nat)
    ensures Times(procs, Times(n, PhaseCost(n))) == procs * (n * (n * (3 * n + 10) + 2))
  {
    TimesIs(n, RowCost(n));
    TimesIs(n, PhaseCost(n));
    TimesIs(procs, Times(n, PhaseCost(n)));
  }

  /** The elimination ends: whatever the interleaving, a run has at most so many steps that
      are not a look at a closed barrier, and a run that can take no further such step
      has left the serial result in A and B. */
  lemma RunsEnd<F>(ops: Arith<F>, n: nat, procs: nat, s0: System<F>, tr: Trace<F>)
    requires Square(s0, n) && procs > 0 && IsRun(ops, n, procs, s0, tr)
    ensures Useful(tr) <= procs * (n * (n * (3 * n + 10) + 2))
    ensures Square(Last(tr).mem, n) && forall u :: 0 <= u < |Last(tr).threads| ==> InBounds(n, Last(tr).threads[u])
    ensures (forall u :: 0 <= u < |Last(tr).threads| ==> Step(ops, n, Last(tr), u) == Last(tr)) ==>
      Last(tr).mem == Forward(ops, s0, n)
  {
    WorkLeft(ops, n, procs, s0, tr);
    Budget(n, procs);
    var k := RunInvariant(ops, n, procs, s0, tr);
    Settled(ops, Elim(ops, s0, n, k), n, procs, k, Last(tr));
    if forall u :: 0 <= u < |Last(tr).threads| ==> Step(ops, n, Last(tr), u) == Last(tr) {
      ParallelEqualsSerial(ops, n, procs, s0, tr);
    }
  }

  /** The whole parallel program: back substitution on the arrays that a finished run has left
      gives the X of the serial program. */
  method FinishParallel<F>(ops: Arith<F>, N: nat, A: array2<F>, B: array<F>, X: array<F>,
                           ghost procs: nat, ghost s0: System<F>, ghost tr: Trace<F>)
    requires Square(s0, N) && procs > 0 && IsRun(ops, N, procs, s0, tr)
    requires forall t :: 0 <= t < |Last(tr).threads| ==> Last(tr).threads[t].pc.Finished?
    requires GaussSerial.Fits(A, B, N) && N <= X.Length && X != B && GaussSerial.Shows(A, B, N, Last(tr).mem)
    modifies X
    ensures X[..N] == Solution(ops, s0, N)
  {
    ParallelEqualsSerial(ops, N, procs, s0, tr);
    GaussSerial.BackSubstitute(ops, N, A, B, X, Last(tr).mem);
  }

  // If no thread can go on, all are done.
  lemma Settled<F>(ops: Arith<F>, l: System<F>, n: nat, procs: nat, k: nat, s: State<F>)
    requires Snapshot(ops, l, n, procs, k, s)
    ensures forall u :: 0 <= u < procs ==> InBounds(n, s.threads[u])
    ensures (forall u :: 0 <= u < procs ==> Step(ops, n, s, u) == s) ==>
      forall t :: 0 <= t < procs ==> s.threads[t].pc.Finished?
  {
    forall u | 0 <= u < procs ensures InBounds(n, s.threads[u]) {
      AnyStep(ops, l, n, procs, k, s, u);
    }
    if t :| 0 <= t < procs && !s.threads[t].pc.Finished? {
      var _ := SomeoneMoves(ops, l, n, procs, k, s, t);
    }
  }
}
