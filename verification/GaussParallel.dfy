/**
 The OpenMP elimination as a protocol of `procs` threads over shared arrays A
 and B.  A step is one access to shared memory or one passage of the implicit
 barrier that ends the worksharing loop; rows are dealt round-robin.  The
 arithmetic stays uninterpreted, so equal results mean equal operations.
 */
module GaussParallel {
  import opened Division
  import opened Gauss

  datatype Pc<F> =
    | LoadNum
    | LoadPivot(num: F)
    | LoadPivotCol(m: F)
    | LoadCol(m: F, p: F)
    | StoreCol(m: F, v: F)
    | LoadPivotRhs(m: F)
    | LoadRhs(m: F, p: F)
    | StoreRhs(m: F, v: F)
    | AtBarrier
    | Finished

  // The private variables of a thread.
  datatype Thread<F> = Thread(norm: nat, row: nat, col: nat, pc: Pc<F>)

  datatype State<F> = State(mem: System<F>, threads: seq<Thread<F>>)

  // The first value of norm for which the outer loop does not run.
  function End(n: nat): nat { if n == 0 then 0 else n - 1 }

  // Thread t begins phase norm with the first row of its share.
  function Begin<F>(n: nat, norm: nat, t: nat): Thread<F> {
    Thread(norm, norm + 1 + t, 0,
           if norm >= End(n) then Finished else if norm + 1 + t < n then LoadNum else AtBarrier)
  }

  // The rest of thread t's share after row.
  function NextRow<F>(n: nat, procs: nat, th: Thread<F>): Thread<F> {
    th.(row := th.row + procs, pc := if th.row + procs < n then LoadNum else AtBarrier)
  }

  predicate Working<F>(th: Thread<F>) { !th.pc.AtBarrier? && !th.pc.Finished? }

  predicate InBounds<F>(n: nat, th: Thread<F>) {
    && (Working(th) ==> th.norm < n && th.row < n)
    && (th.pc.LoadPivotCol? || th.pc.LoadCol? || th.pc.StoreCol? ==> th.col < n)
  }

  // Everybody has finished phase norm.
  predicate BarrierOpen<F>(threads: seq<Thread<F>>, norm: nat) {
    forall u :: 0 <= u < |threads| ==> threads[u].norm > norm || (threads[u].norm == norm && threads[u].pc.AtBarrier?)
  }

  function Step<F>(ops: Arith<F>, n: nat, s: State<F>, t: nat): State<F>
    requires Square(s.mem, n) && t < |s.threads| && InBounds(n, s.threads[t])
  {
    var th, a, b := s.threads[t], s.mem.a, s.mem.b;
    match th.pc
    case LoadNum => Goto(s, t, th.(pc := LoadPivot(a[th.row][th.norm])))
    case LoadPivot(num) => Goto(s, t, th.(col := th.norm, pc := LoadPivotCol(ops.div(num, a[th.norm][th.norm]))))
    case LoadPivotCol(m) => Goto(s, t, th.(pc := LoadCol(m, a[th.norm][th.col])))
    case LoadCol(m, p) => Goto(s, t, th.(pc := StoreCol(m, ops.sub(a[th.row][th.col], ops.mul(p, m)))))
    case StoreCol(m, v) =>
      Goto(s, t, th.(col := th.col + 1, pc := if th.col + 1 < n then LoadPivotCol(m) else LoadPivotRhs(m)))
      .(mem := System(a[th.row := a[th.row][th.col := v]], b))
    case LoadPivotRhs(m) => Goto(s, t, th.(pc := LoadRhs(m, b[th.norm])))
    case LoadRhs(m, p) => Goto(s, t, th.(pc := StoreRhs(m, ops.sub(b[th.row], ops.mul(p, m)))))
    case StoreRhs(m, v) => Goto(s, t, NextRow(n, |s.threads|, th)).(mem := System(a, b[th.row := v]))
    case AtBarrier => if BarrierOpen(s.threads, th.norm) then Goto(s, t, Begin(n, th.norm + 1, t)) else s
    case Finished => s
  }

  function Goto<F>(s: State<F>, t: nat, th: Thread<F>): State<F>
    requires t < |s.threads|
  {
    s.(threads := s.threads[t := th])
  }

  // ----- Runs

  datatype Trace<F> = Start(init: State<F>) | Then(prev: Trace<F>, tid: nat, to: State<F>)

  function Last<F>(tr: Trace<F>): State<F> {
    match tr case Start(s) => s case Then(_, _, s) => s
  }

  ghost predicate Init<F>(n: nat, procs: nat, s0: System<F>, s: State<F>) {
    && s.mem == s0 && |s.threads| == procs
    && forall t :: 0 <= t < procs ==> s.threads[t] == Begin(n, 0, t)
  }

  ghost predicate IsRun<F>(ops: Arith<F>, n: nat, procs: nat, s0: System<F>, tr: Trace<F>) {
    match tr
    case Start(s) => Init(n, procs, s0, s)
    case Then(prev, t, s) =>
      && IsRun(ops, n, procs, s0, prev) && Square(Last(prev).mem, n)
      && t < |Last(prev).threads| && InBounds(n, Last(prev).threads[t])
      && s == Step(ops, n, Last(prev), t)
  }

  // ----- Round-robin shares

  function Owner(norm: nat, procs: nat, r: nat): nat
    requires procs > 0 && norm < r
  {
    (r - norm - 1) % procs
  }

  /** Thread t's share of phase norm: every row below norm has exactly one thread and one turn. */
  lemma RowsDealtOnce(norm: nat, procs: nat, r: nat, t: nat, turn: nat)
    requires procs > 0 && norm < r && t < procs
    ensures r == norm + 1 + t + turn * procs <==> t == Owner(norm, procs, r) && turn == (r - norm - 1) / procs
  {
    var x := r - norm - 1;
    assert x == procs * (x / procs) + x % procs;
    if r == norm + 1 + t + turn * procs {
      DivModUnique(x, procs, turn, t);
    }
  }

  // Two rows of one share are at least procs apart.
  lemma ShareSpacing(norm: nat, procs: nat, r: nat, r': nat)
    requires procs > 0 && norm < r < r' && Owner(norm, procs, r) == Owner(norm, procs, r')
    ensures r + procs <= r'
  {
    SameRemainder(r - norm - 1, r' - norm - 1, procs);
  }

  // ----- The invariant: l is the system at the start of phase k, the furthest phase begun

  predicate InColumns<F>(pc: Pc<F>) { pc.LoadPivotCol? || pc.LoadCol? || pc.StoreCol? }

  // Row r of A as the thread th that owns it has left it.
  ghost function RowOf<F>(ops: Arith<F>, l: System<F>, n: nat, k: nat, r: nat, th: Thread<F>): seq<F>
    requires Square(l, n) && k < r < n
  {
    if th.norm != k then l.a[r]
    else if th.pc.AtBarrier? || r < th.row then ElimRow(ops, l.a[r], l.a[k], k)
    else if th.row < r || th.pc.LoadNum? || th.pc.LoadPivot? then l.a[r]
    else if InColumns(th.pc) && k <= th.col <= n then
      ElimCols(ops, l.a[r], l.a[k], k, Multiplier(ops, l.a[r], l.a[k], k), th.col)
    else ElimRow(ops, l.a[r], l.a[k], k)
  }

  ghost function RhsOf<F>(ops: Arith<F>, l: System<F>, n: nat, k: nat, r: nat, th: Thread<F>): F
    requires Square(l, n) && k < r < n
  {
    if th.norm == k && (th.pc.AtBarrier? || r < th.row) then ElimRhs(ops, l, k, r) else l.b[r]
  }

  // The private values agree with l.
  ghost predicate RegsOk<F>(ops: Arith<F>, l: System<F>, n: nat, k: nat, th: Thread<F>)
    requires Square(l, n) && k < th.row < n
  {
    var m := Multiplier(ops, l.a[th.row], l.a[k], k);
    match th.pc
    case LoadNum => true
    case LoadPivot(num) => num == l.a[th.row][k]
    case LoadPivotCol(m') => m' == m && k <= th.col < n
    case LoadCol(m', p) => m' == m && k <= th.col < n && p == l.a[k][th.col]
    case StoreCol(m', v) => m' == m && k <= th.col < n && v == ops.sub(l.a[th.row][th.col], ops.mul(l.a[k][th.col], m))
    case LoadPivotRhs(m') => m' == m
    case LoadRhs(m', p) => m' == m && p == l.b[k]
    case StoreRhs(_, v) => v == ElimRhs(ops, l, k, th.row)
    case _ => false
  }

  ghost predicate ThreadOk<F>(ops: Arith<F>, l: System<F>, n: nat, procs: nat, k: nat, t: nat, th: Thread<F>)
    requires Square(l, n) && procs > 0
  {
    || (th.norm + 1 == k && th.pc.AtBarrier?)
    || (th.norm == k && if k >= End(n) then th.pc.Finished? else
          th.pc.AtBarrier? || (k < th.row < n && Owner(k, procs, th.row) == t && RegsOk(ops, l, n, k, th)))
  }

  ghost predicate RowOk<F>(ops: Arith<F>, l: System<F>, n: nat, procs: nat, k: nat, s: State<F>, r: nat)
    requires Square(l, n) && Square(s.mem, n) && |s.threads| == procs > 0 && r < n
  {
    if r <= k then s.mem.a[r] == l.a[r] && s.mem.b[r] == l.b[r]
    else
      var th := s.threads[Owner(k, procs, r)];
      s.mem.a[r] == RowOf(ops, l, n, k, r, th) && s.mem.b[r] == RhsOf(ops, l, n, k, r, th)
  }

  ghost predicate Snapshot<F>(ops: Arith<F>, l: System<F>, n: nat, procs: nat, k: nat, s: State<F>) {
    && Square(l, n) && Square(s.mem, n) && |s.threads| == procs > 0 && k <= End(n)
    && (forall t :: 0 <= t < procs ==> ThreadOk(ops, l, n, procs, k, t, s.threads[t]))
    && (forall r :: 0 <= r < n ==> RowOk(ops, l, n, procs, k, s, r))
  }

  // A step that changes nothing but thread t and rows of its share keeps the invariant if
  // thread t and its rows are right afterwards.
  lemma ShareStep<F>(ops: Arith<F>, l: System<F>, n: nat, procs: nat, k: nat, s: State<F>, t: nat, s': State<F>)
    requires Snapshot(ops, l, n, procs, k, s) && t < procs && Square(s'.mem, n)
    requires |s'.threads| == procs && s'.threads == s.threads[t := s'.threads[t]]
    requires ThreadOk(ops, l, n, procs, k, t, s'.threads[t])
    requires forall r :: 0 <= r < n && (r <= k || Owner(k, procs, r) != t) ==>
      s'.mem.a[r] == s.mem.a[r] && s'.mem.b[r] == s.mem.b[r]
    requires forall r :: k < r < n && Owner(k, procs, r) == t ==> RowOk(ops, l, n, procs, k, s', r)
    ensures Snapshot(ops, l, n, procs, k, s')
  {
    forall r | 0 <= r < n ensures RowOk(ops, l, n, procs, k, s', r) {
      assert RowOk(ops, l, n, procs, k, s, r);
    }
    forall u | 0 <= u < procs ensures ThreadOk(ops, l, n, procs, k, u, s'.threads[u]) {
      assert ThreadOk(ops, l, n, procs, k, u, s.threads[u]);
    }
  }

  // Steps that only load.
  lemma LoadStep<F>(ops: Arith<F>, l: System<F>, n: nat, procs: nat, k: nat, s: State<F>, t: nat)
    requires Snapshot(ops, l, n, procs, k, s) && t < procs && Working(s.threads[t])
    requires !s.threads[t].pc.StoreCol? && !s.threads[t].pc.StoreRhs?
    ensures InBounds(n, s.threads[t]) && Snapshot(ops, l, n, procs, k, Step(ops, n, s, t))
  {
    var th := s.threads[t];
    assert ThreadOk(ops, l, n, procs, k, t, th);
    var s' := Step(ops, n, s, t);
    LoadedRegs(ops, l, n, procs, k, s, t);
    forall r | k < r < n && Owner(k, procs, r) == t ensures RowOk(ops, l, n, procs, k, s', r) {
      assert RowOk(ops, l, n, procs, k, s, r);
    }
    ShareStep(ops, l, n, procs, k, s, t, s');
  }

  lemma LoadedRegs<F>(ops: Arith<F>, l: System<F>, n: nat, procs: nat, k: nat, s: State<F>, t: nat)
    requires Snapshot(ops, l, n, procs, k, s) && t < procs && Working(s.threads[t])
    requires !s.threads[t].pc.StoreCol? && !s.threads[t].pc.StoreRhs?
    ensures InBounds(n, s.threads[t]) && ThreadOk(ops, l, n, procs, k, t, Step(ops, n, s, t).threads[t])
  {
    assert ThreadOk(ops, l, n, procs, k, t, s.threads[t]);
    assert RowOk(ops, l, n, procs, k, s, k);
    LoadedRow(ops, l, n, procs, k, s, t);
  }

  // What a thread finds in the element it is about to update is still what l holds there.
  lemma LoadedRow<F>(ops: Arith<F>, l: System<F>, n: nat, procs: nat, k: nat, s: State<F>, t: nat)
    requires Snapshot(ops, l, n, procs, k, s) && t < procs && Working(s.threads[t])
    ensures var th := s.threads[t];
      && k < th.row < n
      && (th.pc.LoadNum? ==> s.mem.a[th.row][k] == l.a[th.row][k])
      && (InColumns(th.pc) ==> k <= th.col < n && s.mem.a[th.row][th.col] == l.a[th.row][th.col])
      && s.mem.b[th.row] == l.b[th.row]
  {
    var th := s.threads[t];
    assert ThreadOk(ops, l, n, procs, k, t, th);
    assert RowOk(ops, l, n, procs, k, s, th.row);
    if InColumns(th.pc) {
      ElimColsAt(ops, l.a[th.row], l.a[k], k, Multiplier(ops, l.a[th.row], l.a[k], k), th.col, th.col);
    }
  }

  lemma StoreColStep<F>(ops: Arith<F>, l: System<F>, n: nat, procs: nat, k: nat, s: State<F>, t: nat)
    requires Snapshot(ops, l, n, procs, k, s) && t < procs && s.threads[t].pc.StoreCol?
    ensures InBounds(n, s.threads[t]) && Snapshot(ops, l, n, procs, k, Step(ops, n, s, t))
  {
    var th := s.threads[t];
    assert ThreadOk(ops, l, n, procs, k, t, th);
    var s' := Step(ops, n, s, t);
    forall r | k < r < n && Owner(k, procs, r) == t ensures RowOk(ops, l, n, procs, k, s', r) {
      assert RowOk(ops, l, n, procs, k, s, r);
    }
    ShareStep(ops, l, n, procs, k, s, t, s');
  }

  lemma StoreRhsStep<F>(ops: Arith<F>, l: System<F>, n: nat, procs: nat, k: nat, s: State<F>, t: nat)
    requires Snapshot(ops, l, n, procs, k, s) && t < procs && s.threads[t].pc.StoreRhs?
    ensures InBounds(n, s.threads[t]) && Snapshot(ops, l, n, procs, k, Step(ops, n, s, t))
  {
    var th := s.threads[t];
    assert ThreadOk(ops, l, n, procs, k, t, th);
    var s' := Step(ops, n, s, t);
    forall r | k < r < n && Owner(k, procs, r) == t ensures RowOk(ops, l, n, procs, k, s', r) {
      assert RowOk(ops, l, n, procs, k, s, r);
      if th.row < r {
        ShareSpacing(k, procs, th.row, r);
      }
    }
    OwnerSteps(k, procs, th.row);
    ShareStep(ops, l, n, procs, k, s, t, s');
  }

  lemma OwnerSteps(norm: nat, procs: nat, r: nat)
    requires procs > 0 && norm < r
    ensures Owner(norm, procs, r + procs) == Owner(norm, procs, r)
  {
    NextSameRemainder(r - norm - 1, procs);
  }

  // Nothing of a share lies before the row it begins with, which is its own.
  lemma ShareBegin(norm: nat, procs: nat, t: nat, r: nat)
    requires t < procs && norm < r && Owner(norm, procs, r) == t
    ensures norm + 1 + t <= r
    ensures Owner(norm, procs, norm + 1 + t) == t
  {
    var x := r - norm - 1;
    assert x == (x / procs) * procs + x % procs;
    DivModUnique(t, procs, 0, t);
  }

  // A thread leaving the barrier of the previous phase joins the current one.
  lemma CatchUpStep<F>(ops: Arith<F>, l: System<F>, n: nat, procs: nat, k: nat, s: State<F>, t: nat)
    requires Snapshot(ops, l, n, procs, k, s) && t < procs && s.threads[t].pc.AtBarrier? && s.threads[t].norm + 1 == k
    ensures Snapshot(ops, l, n, procs, k, Step(ops, n, s, t))
  {
    var s' := Step(ops, n, s, t);
    if s' != s {
      DivModUnique(t, procs, 0, t);
      forall r | k < r < n && Owner(k, procs, r) == t ensures RowOk(ops, l, n, procs, k, s', r) {
        assert RowOk(ops, l, n, procs, k, s, r);
        ShareBegin(k, procs, t, r);
      }
      ShareStep(ops, l, n, procs, k, s, t, s');
    }
  }

  // When the barrier of phase k opens the memory is the system after phase k.
  lemma PhaseComplete<F>(ops: Arith<F>, l: System<F>, n: nat, procs: nat, k: nat, s: State<F>)
    requires Snapshot(ops, l, n, procs, k, s) && k < End(n) && BarrierOpen(s.threads, k)
    ensures s.mem == PhaseTo(ops, l, n, k, n)
    ensures forall t :: 0 <= t < procs ==> s.threads[t].norm == k && s.threads[t].pc.AtBarrier?
  {
    var l' := PhaseTo(ops, l, n, k, n);
    forall t | 0 <= t < procs ensures s.threads[t].norm == k && s.threads[t].pc.AtBarrier? {
      assert ThreadOk(ops, l, n, procs, k, t, s.threads[t]);
    }
    forall r | 0 <= r < n ensures s.mem.a[r] == l'.a[r] && s.mem.b[r] == l'.b[r] {
      PhaseRow(ops, l, n, k, n, r);
      assert RowOk(ops, l, n, procs, k, s, r);
    }
  }

  // The first thread to leave the barrier of phase k begins phase k + 1.
  lemma AdvanceStep<F>(ops: Arith<F>, l: System<F>, n: nat, procs: nat, k: nat, s: State<F>, t: nat)
    requires Snapshot(ops, l, n, procs, k, s) && t < procs && s.threads[t].norm == k && s.threads[t].pc.AtBarrier?
    requires BarrierOpen(s.threads, k)
    ensures k < n && Snapshot(ops, PhaseTo(ops, l, n, k, n), n, procs, k + 1, Step(ops, n, s, t))
  {
    assert ThreadOk(ops, l, n, procs, k, t, s.threads[t]);
    PhaseComplete(ops, l, n, procs, k, s);
    var k', l', s' := k + 1, PhaseTo(ops, l, n, k, n), Step(ops, n, s, t);
    DivModUnique(t, procs, 0, t);
    forall r | 0 <= r < n ensures RowOk(ops, l', n, procs, k', s', r) {
      if r > k' && Owner(k', procs, r) == t {
        ShareBegin(k', procs, t, r);
      }
    }
  }

  lemma AnyStep<F>(ops: Arith<F>, l: System<F>, n: nat, procs: nat, k: nat, s: State<F>, t: nat)
    requires Snapshot(ops, l, n, procs, k, s) && t < procs
    ensures InBounds(n, s.threads[t])
    ensures var s' := Step(ops, n, s, t);
      || Snapshot(ops, l, n, procs, k, s')
      || (k < n && Snapshot(ops, PhaseTo(ops, l, n, k, n), n, procs, k + 1, s'))
  {
    var th := s.threads[t];
    assert ThreadOk(ops, l, n, procs, k, t, th);
    if th.pc.StoreCol? {
      StoreColStep(ops, l, n, procs, k, s, t);
    } else if th.pc.StoreRhs? {
      StoreRhsStep(ops, l, n, procs, k, s, t);
    } else if Working(th) {
      LoadStep(ops, l, n, procs, k, s, t);
    } else if th.pc.AtBarrier? && th.norm + 1 == k {
      CatchUpStep(ops, l, n, procs, k, s, t);
    } else if th.pc.AtBarrier? && BarrierOpen(s.threads, th.norm) {
      AdvanceStep(ops, l, n, procs, k, s, t);
    }
  }

  lemma InitSnapshot<F>(ops: Arith<F>, n: nat, procs: nat, s0: System<F>, s: State<F>)
    requires Square(s0, n) && procs > 0 && Init(n, procs, s0, s)
    ensures Snapshot(ops, s0, n, procs, 0, s)
  {
    forall t | 0 <= t < procs ensures ThreadOk(ops, s0, n, procs, 0, t, s.threads[t]) {
      DivModUnique(t, procs, 0, t);
    }
    forall r | 0 <= r < n ensures RowOk(ops, s0, n, procs, 0, s, r) {
      if r > 0 {
        ShareBegin(0, procs, Owner(0, procs, r), r);
      }
    }
  }

  lemma RunStep<F>(ops: Arith<F>, n: nat, procs: nat, s0: System<F>, k: nat, s: State<F>, t: nat) returns (k': nat)
    requires Square(s0, n) && k <= n && Snapshot(ops, Elim(ops, s0, n, k), n, procs, k, s) && t < procs
    ensures InBounds(n, s.threads[t])
    ensures k' <= n && Snapshot(ops, Elim(ops, s0, n, k'), n, procs, k', Step(ops, n, s, t))
  {
    AnyStep(ops, Elim(ops, s0, n, k), n, procs, k, s, t);
    k' := if Snapshot(ops, Elim(ops, s0, n, k), n, procs, k, Step(ops, n, s, t)) then k else k + 1;
  }

  lemma {:induction false} RunInvariant<F>(ops: Arith<F>, n: nat, procs: nat, s0: System<F>, tr: Trace<F>)
    returns (k: nat)
    requires Square(s0, n) && procs > 0 && IsRun(ops, n, procs, s0, tr)
    ensures k <= n && Snapshot(ops, Elim(ops, s0, n, k), n, procs, k, Last(tr))
    decreases tr
  {
    match tr
    case Start(s) =>
      k := 0;
      InitSnapshot(ops, n, procs, s0, s);
    case Then(prev, t, s) =>
      k := RunInvariant(ops, n, procs, s0, prev);
      k := RunStep(ops, n, procs, s0, k, Last(prev), t);
  }

  /** In every run a working thread t is in a row of its round-robin share, at distance t plus a
      multiple of procs from the first row below norm, so no two threads of a phase share a row. */
  lemma RowsOfThread<F>(ops: Arith<F>, n: nat, procs: nat, s0: System<F>, tr: Trace<F>, t: nat, u: nat)
    requires Square(s0, n) && procs > 0 && IsRun(ops, n, procs, s0, tr)
    requires t < u < |Last(tr).threads| && Working(Last(tr).threads[t]) && Working(Last(tr).threads[u])
    ensures var a, b := Last(tr).threads[t], Last(tr).threads[u];
      && a.norm == b.norm < a.row && b.norm < b.row && a.row != b.row
      && a.row == a.norm + 1 + t + (a.row - a.norm - 1) / procs * procs
      && b.row == b.norm + 1 + u + (b.row - b.norm - 1) / procs * procs
  {
    var k := RunInvariant(ops, n, procs, s0, tr);
    SharesApart(ops, Elim(ops, s0, n, k), n, procs, k, Last(tr), t, u);
  }

  lemma SharesApart<F>(ops: Arith<F>, l: System<F>, n: nat, procs: nat, k: nat, s: State<F>, t: nat, u: nat)
    requires Snapshot(ops, l, n, procs, k, s) && t < u < procs && Working(s.threads[t]) && Working(s.threads[u])
    ensures var a, b := s.threads[t], s.threads[u];
      && a.norm == b.norm < a.row && b.norm < b.row && a.row != b.row
      && a.row == a.norm + 1 + t + (a.row - a.norm - 1) / procs * procs
      && b.row == b.norm + 1 + u + (b.row - b.norm - 1) / procs * procs
  {
    var a, b := s.threads[t], s.threads[u];
    assert ThreadOk(ops, l, n, procs, k, t, a) && ThreadOk(ops, l, n, procs, k, u, b);
    RowsDealtOnce(k, procs, a.row, t, (a.row - k - 1) / procs);
    RowsDealtOnce(k, procs, b.row, u, (b.row - k - 1) / procs);
  }

  /** Whatever the number of threads and the interleaving, once all threads have left the
      parallel region A and B are what the serial elimination leaves, so back substitution
      computes the same X. */
  lemma ParallelEqualsSerial<F>(ops: Arith<F>, n: nat, procs: nat, s0: System<F>, tr: Trace<F>)
    requires Square(s0, n) && procs > 0 && IsRun(ops, n, procs, s0, tr)
    requires forall t :: 0 <= t < |Last(tr).threads| ==> Last(tr).threads[t].pc.Finished?
    ensures Last(tr).mem == Forward(ops, s0, n)
    ensures BackSub(ops, Last(tr).mem, n, 0) == Solution(ops, s0, n)
  {
    var k := RunInvariant(ops, n, procs, s0, tr);
    AllFinished(ops, Elim(ops, s0, n, k), n, procs, k, Last(tr));
  }

  lemma AllFinished<F>(ops: Arith<F>, l: System<F>, n: nat, procs: nat, k: nat, s: State<F>)
    requires Snapshot(ops, l, n, procs, k, s)
    requires forall t :: 0 <= t < procs ==> s.threads[t].pc.Finished?
    ensures k == End(n) && s.mem == l
  {
    assert ThreadOk(ops, l, n, procs, k, 0, s.threads[0]);
    forall r | 0 <= r < n ensures s.mem.a[r] == l.a[r] && s.mem.b[r] == l.b[r] {
      assert RowOk(ops, l, n, procs, k, s, r);
    }
  }

  /** No access is out of bounds, and until all threads are done some thread can go on. */
  lemma NeverStuck<F>(ops: Arith<F>, n: nat, procs: nat, s0: System<F>, tr: Trace<F>, t: nat)
    requires Square(s0, n) && procs > 0 && IsRun(ops, n, procs, s0, tr)
    requires t < |Last(tr).threads| && !Last(tr).threads[t].pc.Finished?
    ensures Square(Last(tr).mem, n) && forall u :: 0 <= u < |Last(tr).threads| ==> InBounds(n, Last(tr).threads[u])
    ensures exists u :: 0 <= u < |Last(tr).threads| && Step(ops, n, Last(tr), u) != Last(tr)
  {
    var k := RunInvariant(ops, n, procs, s0, tr);
    var s, l := Last(tr), Elim(ops, s0, n, k);
    forall u | 0 <= u < procs ensures InBounds(n, s.threads[u]) {
      AnyStep(ops, l, n, procs, k, s, u);
    }
    var u := SomeoneMoves(ops, l, n, procs, k, s, t);
  }

  lemma SomeoneMoves<F>(ops: Arith<F>, l: System<F>, n: nat, procs: nat, k: nat, s: State<F>, t: nat) returns (u: nat)
    requires Snapshot(ops, l, n, procs, k, s) && t < procs && !s.threads[t].pc.Finished?
    ensures u < procs && InBounds(n, s.threads[u]) && Step(ops, n, s, u) != s
  {
    forall v | 0 <= v < procs ensures ThreadOk(ops, l, n, procs, k, v, s.threads[v]) {
    }
    if v :| 0 <= v < procs && Working(s.threads[v]) {
      u := v;
      AnyStep(ops, l, n, procs, k, s, u);
      assert Step(ops, n, s, u).threads[u].pc != s.threads[u].pc;
    } else if v :| 0 <= v < procs && s.threads[v].norm + 1 == k {
      u := v;
      assert Step(ops, n, s, u).threads[u].norm == k;
    } else {
      u := t;
      assert Step(ops, n, s, u).threads[u].norm == k + 1;
    }
  }
}
