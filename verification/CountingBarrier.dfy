/**
 The reusable two-counter barrier as a protocol of `size` threads that call it
 again and again.  A step is one access to shared memory; memory is
 sequentially consistent.  A program counter names the access that comes next.
 */
module CountingBarrier {
  import opened Machine

  type Tid = nat

  datatype Pc =
    | Outside                      // about to read cur
    | HaveCur(c: nat)              // about to fetch-and-add count[c]
    | LastRead(c: nat)             // last to arrive, about to read cur
    | LastToggle(c: nat, v: nat)   // about to write cur
    | LastZero(c: nat)             // about to zero count[c]
    | Spinning(c: nat)             // about to read count[c]

  datatype State = State(size: nat, count: seq<nat>, cur: nat, pc: seq<Pc>)

  predicate WellFormed(s: State) {
    |s.count| == 2 && s.size == |s.pc|
  }

  // As many threads as the barrier was initialised for.
  ghost predicate Init(s: State) {
    && s.size == |s.pc| && 1 <= s.size < WORD
    && s.count == [0, 0] && s.cur == 0
    && forall t :: 0 <= t < |s.pc| ==> s.pc[t] == Outside
  }

  function Goto(s: State, t: Tid, pc: Pc): State
    requires t < |s.pc|
  {
    s.(pc := s.pc[t := pc])
  }

  function XorOne(v: nat): nat {
    if v % 2 == 0 then v + 1 else v - 1
  }

  predicate InBounds(pc: Pc) {
    pc.Outside? || pc.c < 2
  }

  function Step(s: State, t: Tid): State
    requires WellFormed(s) && t < |s.pc| && InBounds(s.pc[t])
  {
    match s.pc[t]
    case Outside => Goto(s, t, HaveCur(s.cur))
    case HaveCur(c) =>
      Goto(s, t, if s.count[c] == (s.size - 1) % WORD then LastRead(c) else Spinning(c))
      .(count := s.count[c := (s.count[c] + 1) % WORD])
    case LastRead(c) => Goto(s, t, LastToggle(c, s.cur))
    case LastToggle(c, v) => Goto(s, t, LastZero(c)).(cur := XorOne(v))
    case LastZero(c) => Goto(s, t, Outside).(count := s.count[c := 0])
    case Spinning(c) => if s.count[c] != 0 then s else Goto(s, t, Outside)
  }

  // ----- Runs and what is counted along them

  datatype Trace = Start(init: State) | Then(prev: Trace, tid: Tid, to: State)

  function Last(tr: Trace): State {
    match tr case Start(s) => s case Then(_, _, s) => s
  }

  ghost predicate Next(s: State, t: Tid, s': State)
    requires WellFormed(s)
  {
    t < |s.pc| && InBounds(s.pc[t]) && s' == Step(s, t)
  }

  ghost predicate IsRun(tr: Trace) {
    match tr
    case Start(s) => Init(s)
    case Then(prev, t, s) => IsRun(prev) && WellFormed(Last(prev)) && Next(Last(prev), t, s)
  }

  /** Per thread the calls in which it has been counted and the calls it has returned
      from; in all, the rounds closed by zeroing a counter and the steps that were not spins. */
  datatype Tally = Tally(arrived: seq<nat>, returned: seq<nat>, rounds: nat, useful: nat)

  function Bump(xs: seq<nat>, t: Tid): seq<nat> {
    if t < |xs| then xs[t := xs[t] + 1] else xs
  }

  function Observe(h: Tally, s: State, t: Tid, s': State): Tally
    requires t < |s.pc| && t < |s'.pc|
  {
    Tally(
      if s.pc[t].HaveCur? then Bump(h.arrived, t) else h.arrived,
      if !s.pc[t].Outside? && s'.pc[t].Outside? then Bump(h.returned, t) else h.returned,
      if s.pc[t].LastZero? then h.rounds + 1 else h.rounds,
      if s' != s then h.useful + 1 else h.useful)
  }

  ghost function TallyOf(tr: Trace): Tally
    requires IsRun(tr)
  {
    match tr
    case Start(s) => var zeros := seq(|s.pc|, _ => 0); Tally(zeros, zeros, 0, 0)
    case Then(prev, t, s) => Observe(TallyOf(prev), Last(prev), t, s)
  }

  // ----- The invariant

  // How often v occurs.
  function Count(xs: seq<nat>, v: nat): nat {
    if xs == [] then 0 else (if xs[0] == v then 1 else 0) + Count(xs[1..], v)
  }

  lemma {:induction false} CountBump(xs: seq<nat>, t: Tid, v: nat)
    requires t < |xs| && xs[t] + 1 == v
    ensures Count(xs[t := v], v) == Count(xs, v) + 1
  {
    if t > 0 {
      assert xs[t := v][1..] == xs[1..][t - 1 := v];
      CountBump(xs[1..], t - 1, v);
    } else {
      assert xs[0 := v][1..] == xs[1..];
    }
  }

  lemma {:induction false} CountBounds(xs: seq<nat>, v: nat)
    ensures Count(xs, v) <= |xs|
    ensures Count(xs, v) == |xs| <==> forall t :: 0 <= t < |xs| ==> xs[t] == v
    ensures Count(xs, v) == 0 <==> forall t :: 0 <= t < |xs| ==> xs[t] != v
  {
    if xs != [] {
      CountBounds(xs[1..], v);
      assert xs == [xs[0]] + xs[1..];
    }
  }

  predicate Closing(pc: Pc) { pc.LastRead? || pc.LastToggle? || pc.LastZero? }

  // What a thread is doing, given k closed rounds.
  ghost predicate ThreadOk(pc: Pc, arrived: nat, returned: nat, k: nat) {
    match pc
    case Outside => arrived == k && returned == k
    case HaveCur(c) => arrived == k && returned == k && c == k % 2
    case Spinning(c) =>
      || (arrived == k + 1 && returned == k && c == k % 2)
      || (arrived == k && returned + 1 == k && c == (k + 1) % 2)
    case LastRead(c) => arrived == k + 1 && returned == k && c == k % 2
    case LastToggle(c, v) => arrived == k + 1 && returned == k && c == k % 2 && v == k % 2
    case LastZero(c) => arrived == k + 1 && returned == k && c == k % 2
  }

  ghost predicate Inv(s: State, h: Tally) {
    && WellFormed(s) && 1 <= s.size < WORD
    && |h.arrived| == s.size && |h.returned| == s.size
    && (forall t :: 0 <= t < s.size ==> ThreadOk(s.pc[t], h.arrived[t], h.returned[t], h.rounds))
    && s.count[(h.rounds + 1) % 2] == 0
    && s.count[h.rounds % 2] == Count(h.arrived, h.rounds + 1)
    && (s.count[h.rounds % 2] == s.size <==> exists t :: 0 <= t < s.size && Closing(s.pc[t]))
    && (forall t, u :: 0 <= t < u < s.size ==> !(Closing(s.pc[t]) && Closing(s.pc[u])))
    && s.cur == if exists t :: 0 <= t < s.size && s.pc[t].LastZero? then (h.rounds + 1) % 2 else h.rounds % 2
  }

  // Once someone closes the round everybody has arrived in it.
  lemma AllArrived(s: State, h: Tally, t: Tid)
    requires Inv(s, h) && t < s.size && Closing(s.pc[t])
    ensures forall u :: 0 <= u < s.size ==> h.arrived[u] == h.rounds + 1
    ensures forall u :: 0 <= u < s.size && u != t ==> s.pc[u] == Spinning(h.rounds % 2)
  {
    CountBounds(h.arrived, h.rounds + 1);
    forall u | 0 <= u < s.size && u != t ensures s.pc[u] == Spinning(h.rounds % 2) {
      assert ThreadOk(s.pc[u], h.arrived[u], h.returned[u], h.rounds);
    }
  }

  lemma InvStep(s: State, h: Tally, t: Tid)
    requires Inv(s, h) && t < s.size
    ensures InBounds(s.pc[t]) && Inv(Step(s, t), Observe(h, s, t, Step(s, t)))
  {
    assert ThreadOk(s.pc[t], h.arrived[t], h.returned[t], h.rounds);
    match s.pc[t]
    case Outside => ReadCurStep(s, h, t);
    case HaveCur(_) => ArriveStep(s, h, t);
    case LastRead(_) => CloseStep(s, h, t);
    case LastToggle(_, _) => CloseStep(s, h, t);
    case LastZero(_) => ZeroStep(s, h, t);
    case Spinning(_) => SpinStep(s, h, t);
  }

  lemma ReadCurStep(s: State, h: Tally, t: Tid)
    requires Inv(s, h) && t < s.size && s.pc[t].Outside?
    ensures Inv(Step(s, t), Observe(h, s, t, Step(s, t)))
  {
    NobodyCloses(s, h, t);
  }

  // Somebody who has not arrived yet keeps the round open.
  lemma NobodyCloses(s: State, h: Tally, t: Tid)
    requires Inv(s, h) && t < s.size && h.arrived[t] == h.rounds
    ensures forall u :: 0 <= u < s.size ==> !Closing(s.pc[u])
  {
    CountBounds(h.arrived, h.rounds + 1);
  }

  // An arrival counts the thread and picks the last one to close the round.
  lemma ArriveEffect(s: State, h: Tally, t: Tid)
    requires Inv(s, h) && t < s.size && s.pc[t].HaveCur? && InBounds(s.pc[t])
    ensures var k, s' := h.rounds, Step(s, t); var h' := Observe(h, s, t, s');
      && s'.count == s.count[k % 2 := s.count[k % 2] + 1] && s'.pc == s.pc[t := s'.pc[t]]
      && h'.arrived == h.arrived[t := k + 1] && h'.returned == h.returned && h'.rounds == k
      && h.arrived[t] == k && h.returned[t] == k
      && s'.pc[t] == if s.count[k % 2] + 1 == s.size then LastRead(k % 2) else Spinning(k % 2)
  {
    assert ThreadOk(s.pc[t], h.arrived[t], h.returned[t], h.rounds);
    CountBounds(h.arrived, h.rounds + 1);
    NoWrap(s.count[h.rounds % 2], s.size);
  }

  lemma NoWrap(count: nat, size: nat)
    requires count < size < WORD
    ensures (count + 1) % WORD == count + 1 && (size - 1) % WORD == size - 1
  {
  }

  lemma ArriveStep(s: State, h: Tally, t: Tid)
    requires Inv(s, h) && t < s.size && s.pc[t].HaveCur? && InBounds(s.pc[t])
    ensures Inv(Step(s, t), Observe(h, s, t, Step(s, t)))
  {
    NobodyCloses(s, h, t);
    ArriveEffect(s, h, t);
    CountBump(h.arrived, t, h.rounds + 1);
    var k, s' := h.rounds, Step(s, t);
    var h' := Observe(h, s, t, s');
    forall u | 0 <= u < s.size ensures ThreadOk(s'.pc[u], h'.arrived[u], h'.returned[u], k) {
      assert ThreadOk(s.pc[u], h.arrived[u], h.returned[u], k);
    }
    assert forall u :: 0 <= u < s.size && u != t ==> !Closing(s'.pc[u]);
  }

  lemma CloseStep(s: State, h: Tally, t: Tid)
    requires Inv(s, h) && t < s.size && (s.pc[t].LastRead? || s.pc[t].LastToggle?) && InBounds(s.pc[t])
    ensures Inv(Step(s, t), Observe(h, s, t, Step(s, t)))
  {
    AllArrived(s, h, t);
    var s' := Step(s, t);
    assert Closing(s'.pc[t]);
  }

  lemma ZeroStep(s: State, h: Tally, t: Tid)
    requires Inv(s, h) && t < s.size && s.pc[t].LastZero? && InBounds(s.pc[t])
    ensures Inv(Step(s, t), Observe(h, s, t, Step(s, t)))
  {
    AllArrived(s, h, t);
    CountBounds(h.arrived, h.rounds + 2);
    var k, s' := h.rounds, Step(s, t);
    var h' := Observe(h, s, t, s');
    assert ThreadOk(s.pc[t], h.arrived[t], h.returned[t], k);
    assert s'.count == s.count[k % 2 := 0] && s'.cur == (k + 1) % 2;
    assert h'.arrived == h.arrived && h'.returned == h.returned[t := k + 1] && h'.rounds == k + 1;
    forall u | 0 <= u < s.size ensures ThreadOk(s'.pc[u], h'.arrived[u], h'.returned[u], k + 1) && !Closing(s'.pc[u]) {
      assert ThreadOk(s.pc[u], h.arrived[u], h.returned[u], k);
    }
  }

  lemma SpinStep(s: State, h: Tally, t: Tid)
    requires Inv(s, h) && t < s.size && s.pc[t].Spinning? && InBounds(s.pc[t])
    ensures Inv(Step(s, t), Observe(h, s, t, Step(s, t)))
  {
    CountBounds(h.arrived, h.rounds + 1);
    var k, s' := h.rounds, Step(s, t);
    var h' := Observe(h, s, t, s');
    assert ThreadOk(s.pc[t], h.arrived[t], h.returned[t], k);
    if s.count[s.pc[t].c] != 0 {
      assert s' == s && h' == h;
    } else {
      assert h.arrived[t] == k && h.returned[t] + 1 == k;
      NobodyCloses(s, h, t);
      assert h'.arrived == h.arrived && h'.returned == h.returned[t := k] && h'.rounds == k;
      forall u | 0 <= u < s.size ensures ThreadOk(s'.pc[u], h'.arrived[u], h'.returned[u], k) {
        assert ThreadOk(s.pc[u], h.arrived[u], h.returned[u], k);
      }
    }
  }

  lemma {:induction false} RunInvariant(tr: Trace)
    requires IsRun(tr)
    ensures Inv(Last(tr), TallyOf(tr))
  {
    match tr
    case Start(s) =>
      CountBounds(TallyOf(tr).arrived, 1);
    case Then(prev, t, s) =>
      RunInvariant(prev);
      InvStep(Last(prev), TallyOf(prev), t);
  }

  // ----- What every run guarantees

  /** Safety over all rounds: nobody has returned from more calls than everybody has arrived
      in, so completed rounds never differ by more than one. */
  lemma NobodyLeavesEarly(tr: Trace, t: Tid, u: Tid)
    requires IsRun(tr) && t < Last(tr).size && u < Last(tr).size
    ensures |TallyOf(tr).arrived| == Last(tr).size == |TallyOf(tr).returned|
    ensures TallyOf(tr).returned[t] <= TallyOf(tr).arrived[u] <= TallyOf(tr).returned[u] + 1
    ensures TallyOf(tr).returned[t] <= TallyOf(tr).returned[u] + 1
  {
    RunInvariant(tr);
    var s, h := Last(tr), TallyOf(tr);
    assert ThreadOk(s.pc[t], h.arrived[t], h.returned[t], h.rounds);
    assert ThreadOk(s.pc[u], h.arrived[u], h.returned[u], h.rounds);
    if exists w :: 0 <= w < s.size && Closing(s.pc[w]) {
      var w :| 0 <= w < s.size && Closing(s.pc[w]);
      AllArrived(s, h, w);
    }
  }

  /** Reuse: the counter about to be incremented belongs to the parity of the caller's round,
      is below size, and whoever spins on it has arrived in that same round. */
  lemma CounterReuse(tr: Trace, t: Tid, u: Tid)
    requires IsRun(tr) && WellFormed(Last(tr)) && t < Last(tr).size && u < Last(tr).size
    requires Last(tr).pc[t].HaveCur?
    ensures |TallyOf(tr).arrived| == Last(tr).size
    ensures Last(tr).pc[t].c == TallyOf(tr).arrived[t] % 2
    ensures Last(tr).count[Last(tr).pc[t].c] < Last(tr).size
    ensures Last(tr).pc[u] == Spinning(Last(tr).pc[t].c) ==>
      TallyOf(tr).arrived[u] == TallyOf(tr).arrived[t] + 1
  {
    RunInvariant(tr);
    ReuseInv(Last(tr), TallyOf(tr), t, u);
  }

  lemma ReuseInv(s: State, h: Tally, t: Tid, u: Tid)
    requires Inv(s, h) && t < s.size && u < s.size && s.pc[t].HaveCur?
    ensures s.pc[t].c == h.arrived[t] % 2 && s.count[s.pc[t].c] < s.size
    ensures s.pc[u] == Spinning(s.pc[t].c) ==> h.arrived[u] == h.arrived[t] + 1
  {
    assert ThreadOk(s.pc[t], h.arrived[t], h.returned[t], h.rounds);
    assert ThreadOk(s.pc[u], h.arrived[u], h.returned[u], h.rounds);
    CountBounds(h.arrived, h.rounds + 1);
    assert (h.rounds + 1) % 2 != h.rounds % 2;
  }

  /** Neither counter ever exceeds size, hence never wraps, and every access is in bounds. */
  lemma CountersBounded(tr: Trace, t: Tid)
    requires IsRun(tr) && t < Last(tr).size
    ensures WellFormed(Last(tr)) && InBounds(Last(tr).pc[t])
    ensures Last(tr).count[0] <= Last(tr).size && Last(tr).count[1] <= Last(tr).size
  {
    RunInvariant(tr);
    BoundedInv(Last(tr), TallyOf(tr), t);
  }

  lemma BoundedInv(s: State, h: Tally, t: Tid)
    requires Inv(s, h) && t < s.size
    ensures InBounds(s.pc[t]) && s.count[0] <= s.size && s.count[1] <= s.size
  {
    assert ThreadOk(s.pc[t], h.arrived[t], h.returned[t], h.rounds);
    CountBounds(h.arrived, h.rounds + 1);
    assert h.rounds % 2 == 0 ==> (h.rounds + 1) % 2 == 1;
  }

  /** The barrier never sticks: some thread always has a step that is not a spin. */
  lemma NeverSticks(tr: Trace)
    requires IsRun(tr)
    ensures WellFormed(Last(tr))
    ensures exists t :: 0 <= t < Last(tr).size && InBounds(Last(tr).pc[t]) && Step(Last(tr), t) != Last(tr)
  {
    RunInvariant(tr);
    var _ := SomeoneMoves(Last(tr), TallyOf(tr));
  }

  lemma SomeoneMoves(s: State, h: Tally) returns (t: Tid)
    requires Inv(s, h)
    ensures t < s.size && InBounds(s.pc[t]) && Step(s, t) != s
  {
    CountBounds(h.arrived, h.rounds + 1);
    t :| t < s.size && (Closing(s.pc[t]) || h.arrived[t] != h.rounds + 1);
    assert ThreadOk(s.pc[t], h.arrived[t], h.returned[t], h.rounds);
    assert Step(s, t).pc[t] != s.pc[t];
  }

  // Steps a thread may still take, spinning aside, until round k is closed.
  function Weight(pc: Pc, k: nat): nat {
    match pc
    case Spinning(c) => if c == k % 2 then 0 else 7
    case Outside => 6
    case HaveCur(_) => 5
    case LastRead(_) => 3
    case LastToggle(_, _) => 2
    case LastZero(_) => 1
  }

  function Work(pcs: seq<Pc>, k: nat): nat {
    if pcs == [] then 0 else Weight(pcs[0], k) + Work(pcs[1..], k)
  }

  lemma {:induction false} WorkUpdate(pcs: seq<Pc>, t: Tid, pc: Pc, k: nat)
    requires t < |pcs|
    ensures Work(pcs[t := pc], k) + Weight(pcs[t], k) == Work(pcs, k) + Weight(pc, k)
  {
    if t > 0 {
      assert pcs[t := pc][1..] == pcs[1..][t - 1 := pc];
      WorkUpdate(pcs[1..], t - 1, pc, k);
    } else {
      assert pcs[0 := pc][1..] == pcs[1..];
    }
  }

  lemma {:induction false} WorkBound(pcs: seq<Pc>, k: nat)
    ensures Work(pcs, k) <= 7 * |pcs|
  {
    if pcs != [] {
      WorkBound(pcs[1..], k);
    }
  }

  // A useful step uses up work of the round, unless it is the one that closes the round.
  lemma WorkStep(s: State, h: Tally, t: Tid)
    requires Inv(s, h) && t < s.size && InBounds(s.pc[t])
    ensures var s' := Step(s, t); var h' := Observe(h, s, t, s');
      if s.pc[t].LastZero? then
        h'.rounds == h.rounds + 1 && h'.useful == h.useful + 1 && Work(s.pc, h.rounds) >= 1
      else
        h'.rounds == h.rounds && h'.useful + Work(s'.pc, h.rounds) <= h.useful + Work(s.pc, h.rounds)
  {
    var s' := Step(s, t);
    assert ThreadOk(s.pc[t], h.arrived[t], h.returned[t], h.rounds);
    WorkUpdate(s.pc, t, s'.pc[t], h.rounds);
    if s.pc[t].Spinning? && s' != s {
      CountBounds(h.arrived, h.rounds + 1);
      assert s.pc[t].c != h.rounds % 2;
    } else if s.pc[t].LastZero? {
      WorkUpdate(s.pc, t, Spinning(h.rounds % 2), h.rounds);
    }
    assert s'.pc == s.pc[t := s'.pc[t]];
  }

  // At most seven useful steps for each thread and round begun, and t has returned from
  // all closed rounds but perhaps the last.
  ghost predicate Paced(s: State, h: Tally, t: Tid) {
    && t < |h.returned| == s.size
    && h.useful <= 7 * s.size * (h.rounds + 1)
    && h.rounds <= h.returned[t] + 1
  }

  /** Throughput: useful steps are bounded by the rounds they complete, so every run that keeps
      taking useful steps keeps completing rounds, for every thread. */
  lemma UsefulStepsCompleteRounds(tr: Trace, t: Tid)
    requires IsRun(tr) && t < Last(tr).size
    ensures Paced(Last(tr), TallyOf(tr), t)
  {
    RunInvariant(tr);
    UsefulBound(tr);
    WithinProduct(Last(tr), TallyOf(tr), t);
  }

  lemma WithinProduct(s: State, h: Tally, t: Tid)
    requires Inv(s, h) && WithinBudget(s, h) && t < s.size
    ensures Paced(s, h, t)
  {
    assert ThreadOk(s.pc[t], h.arrived[t], h.returned[t], h.rounds);
    BudgetIsProduct(s.size, h.rounds + 1);
  }

  function Budget(n: nat, rounds: nat): nat {
    if rounds == 0 then 0 else Budget(n, rounds - 1) + 7 * n
  }

  lemma {:induction false} BudgetIsProduct(n: nat, rounds: nat)
    ensures Budget(n, rounds) == 7 * n * rounds
  {
    if rounds > 0 {
      BudgetIsProduct(n, rounds - 1);
      assert 7 * n * rounds == 7 * n * (rounds - 1) + 7 * n;
    }
  }

  ghost predicate WithinBudget(s: State, h: Tally) {
    h.useful + Work(s.pc, h.rounds) <= Budget(|s.pc|, h.rounds + 1)
  }

  lemma BudgetStep(s: State, h: Tally, t: Tid)
    requires Inv(s, h) && t < s.size && InBounds(s.pc[t]) && WithinBudget(s, h)
    ensures WithinBudget(Step(s, t), Observe(h, s, t, Step(s, t)))
  {
    WorkStep(s, h, t);
    WorkBound(Step(s, t).pc, h.rounds + 1);
  }

  lemma {:induction false} UsefulBound(tr: Trace)
    requires IsRun(tr)
    ensures WithinBudget(Last(tr), TallyOf(tr))
  {
    match tr
    case Start(s) =>
      WorkBound(s.pc, 0);
      assert Budget(|s.pc|, 1) == Budget(|s.pc|, 0) + 7 * |s.pc|;
    case Then(prev, t, s) =>
      UsefulBound(prev);
      RunInvariant(prev);
      BudgetStep(Last(prev), TallyOf(prev), t);
  }
}
