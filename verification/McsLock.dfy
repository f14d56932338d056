/**
 The MCS queue lock as a protocol of any number of threads.

 Every thread owns one queue node, so a node is named by its owner.  A step is
 exactly one access to shared memory (a plain read, a plain write, an xchg or
 a compare-and-swap) or the start of a call; memory is sequentially consistent.
 A program counter names the access that comes next.
 */
module McsLock {
  import opened Pigeonhole

  type Tid = nat

  datatype Ptr = Null | Node(owner: Tid)

  datatype Pc =
    | Idle
    // nk_mcs_lock
    | LockNext
    | LockFlag
    | LockSwap
    | LockLink(last: Tid)
    | LockSpin
    // nk_mcs_trylock
    | TryNext
    | TryFlag
    | TryCas
    // the lock is held and no unlock has been called yet
    | Critical
    // nk_mcs_unlock
    | UnlockPeek
    | UnlockTest
    | UnlockCas
    | UnlockWait
    | UnlockLoad
    | UnlockGrant(succ: Tid)

  datatype State = State(tail: Ptr, next: seq<Ptr>, locked: seq<int>, pc: seq<Pc>)

  predicate WellFormed(s: State) {
    |s.next| == |s.pc| && |s.locked| == |s.pc|
  }

  // The lock word is NULL and nobody is in a call; nodes hold arbitrary garbage.
  ghost predicate Init(s: State) {
    && WellFormed(s)
    && s.tail == Null
    && forall t :: 0 <= t < |s.pc| ==> s.pc[t] == Idle
  }

  function Goto(s: State, t: Tid, pc: Pc): State
    requires t < |s.pc|
  {
    s.(pc := s.pc[t := pc])
  }

  // The pointer about to be followed, if any, points to a node.
  predicate CanStep(s: State, t: Tid)
    requires WellFormed(s) && t < |s.pc|
  {
    match s.pc[t]
    case LockLink(last) => last < |s.next|
    case UnlockLoad => s.next[t].Node?
    case UnlockGrant(succ) => succ < |s.locked|
    case _ => true
  }

  // The next access of thread t; viaTry picks which call an idle thread starts.
  function Step(s: State, t: Tid, viaTry: bool): State
    requires WellFormed(s) && t < |s.pc| && CanStep(s, t)
  {
    match s.pc[t]
    case Idle => Goto(s, t, if viaTry then TryNext else LockNext)
    case LockNext => Goto(s, t, LockFlag).(next := s.next[t := Null])
    case LockFlag => Goto(s, t, LockSwap).(locked := s.locked[t := 0])
    case LockSwap =>
      Goto(s, t, if s.tail.Null? then Critical else LockLink(s.tail.owner)).(tail := Node(t))
    case LockLink(last) => Goto(s, t, LockSpin).(next := s.next[last := Node(t)])
    case LockSpin => if s.locked[t] != 1 then s else Goto(s, t, Critical)
    case TryNext => Goto(s, t, TryFlag).(next := s.next[t := Null])
    case TryFlag => Goto(s, t, TryCas).(locked := s.locked[t := 0])
    case TryCas => if s.tail.Null? then Goto(s, t, Critical).(tail := Node(t)) else Goto(s, t, Idle)
    case Critical => Goto(s, t, UnlockPeek)
    case UnlockPeek => Goto(s, t, UnlockTest)
    case UnlockTest => Goto(s, t, if s.next[t].Null? then UnlockCas else UnlockLoad)
    case UnlockCas => if s.tail == Node(t) then Goto(s, t, Idle).(tail := Null) else Goto(s, t, UnlockWait)
    case UnlockWait => if s.next[t].Null? then s else Goto(s, t, UnlockLoad)
    case UnlockLoad => Goto(s, t, UnlockGrant(s.next[t].owner))
    case UnlockGrant(succ) => Goto(s, t, Idle).(locked := s.locked[succ := 1])
  }

  ghost predicate Next(s: State, t: Tid, s': State)
    requires WellFormed(s)
  {
    t < |s.pc| && CanStep(s, t) && exists viaTry :: s' == Step(s, t, viaTry)
  }

  // From the acquisition up to the releasing write or compare-and-swap.
  predicate Holding(pc: Pc) {
    pc.Critical? || pc.UnlockPeek? || pc.UnlockTest? || pc.UnlockCas? || pc.UnlockWait?
    || pc.UnlockLoad? || pc.UnlockGrant?
  }

  // From the swap onto the lock word up to the release.
  predicate Queued(pc: Pc) {
    pc.LockLink? || pc.LockSpin? || Holding(pc)
  }

  // ----- Runs and what an observer logs of them

  // A step records which call an idle thread begins with it.
  datatype Trace = Start(init: State) | Then(prev: Trace, tid: Tid, viaTry: bool, to: State)

  function Last(tr: Trace): State {
    match tr case Start(s) => s case Then(_, _, _, s) => s
  }

  ghost predicate IsRun(tr: Trace) {
    match tr
    case Start(s) => Init(s)
    case Then(prev, t, viaTry, s) =>
      && IsRun(prev) && WellFormed(Last(prev)) && Next(Last(prev), t, s)
      && s == Step(Last(prev), t, viaTry)
  }

  /** Threads in the order of: hitting the lock word, being handed the lock
      (by an empty lock word or by a write to their flag), acquiring, releasing. */
  datatype Log = Log(arrived: seq<Tid>, granted: seq<Tid>, acquired: seq<Tid>, released: seq<Tid>)

  // Thread t installs its own node in the lock word.
  predicate Arrives(s: State, t: Tid)
    requires t < |s.pc|
  {
    s.pc[t].LockSwap? || (s.pc[t].TryCas? && s.tail.Null?)
  }

  function Observe(l: Log, s: State, t: Tid, s': State): Log
    requires t < |s.pc| && t < |s'.pc|
  {
    Log(
      if Arrives(s, t) then l.arrived + [t] else l.arrived,
      if Arrives(s, t) && s.tail.Null? then l.granted + [t]
      else if s.pc[t].UnlockGrant? then l.granted + [s.pc[t].succ] else l.granted,
      if !Holding(s.pc[t]) && Holding(s'.pc[t]) then l.acquired + [t] else l.acquired,
      if Holding(s.pc[t]) && !Holding(s'.pc[t]) then l.released + [t] else l.released)
  }

  ghost function LogOf(tr: Trace): Log
    requires IsRun(tr)
  {
    match tr
    case Start(_) => Log([], [], [], [])
    case Then(prev, t, _, s) => Observe(LogOf(prev), Last(prev), t, s)
  }

  // ----- The invariant, relative to the queue q of arrivals not yet released

  ghost predicate InRange(s: State, q: seq<Tid>) {
    && (forall i :: 0 <= i < |q| ==> q[i] < |s.pc|)
    && (forall i, j :: 0 <= i < j < |q| ==> q[i] != q[j])
    && (forall t :: 0 <= t < |s.pc| ==> (t in q <==> Queued(s.pc[t])))
  }

  ghost predicate TailMatches(s: State, q: seq<Tid>) {
    s.tail == if q == [] then Null else Node(q[|q| - 1])
  }

  // The head of the queue holds the lock or has been handed it.
  ghost predicate HeadOk(s: State, q: seq<Tid>)
    requires WellFormed(s) && q != [] && q[0] < |s.pc|
  {
    var h := q[0];
    && (Holding(s.pc[h]) || (s.pc[h].LockSpin? && s.locked[h] == 1))
    && (s.pc[h].UnlockWait? ==> |q| >= 2)
    && (s.pc[h].UnlockLoad? ==> s.next[h].Node?)
    && (s.pc[h].UnlockGrant? ==> s.next[h] == Node(s.pc[h].succ))
  }

  // A waiter either still has to link itself behind its predecessor or is linked and spins.
  ghost predicate WaiterOk(s: State, pred: Tid, t: Tid)
    requires WellFormed(s) && pred < |s.pc| && t < |s.pc|
  {
    && s.locked[t] == 0
    && ((s.pc[t] == LockLink(pred) && s.next[pred] == Null)
        || (s.pc[t] == LockSpin && s.next[pred] == Node(t)))
  }

  ghost predicate NodeReset(s: State, t: Tid)
    requires WellFormed(s) && t < |s.pc|
  {
    && (s.pc[t].LockFlag? || s.pc[t].LockSwap? || s.pc[t].TryFlag? || s.pc[t].TryCas? ==> s.next[t] == Null)
    && (s.pc[t].LockSwap? || s.pc[t].TryCas? ==> s.locked[t] == 0)
  }

  ghost predicate Inv(s: State, q: seq<Tid>) {
    && WellFormed(s)
    && InRange(s, q)
    && TailMatches(s, q)
    && (forall t :: 0 <= t < |s.pc| ==> NodeReset(s, t))
    && (q != [] ==> HeadOk(s, q) && s.next[q[|q| - 1]] == Null)
    && (forall i :: 0 < i < |q| ==> WaiterOk(s, q[i - 1], q[i]))
  }

  // The queue after a step: arrivals join at the end, a release drops the head.
  function NextQueue(s: State, t: Tid, s': State, q: seq<Tid>): seq<Tid>
    requires t < |s.pc| && t < |s'.pc|
  {
    if Arrives(s, t) then q + [t]
    else if Holding(s.pc[t]) && !Holding(s'.pc[t]) && q != [] then q[1..]
    else q
  }

  lemma InvStep(s: State, t: Tid, s': State, q: seq<Tid>)
    requires Inv(s, q) && Next(s, t, s')
    ensures |s'.pc| == |s.pc| && Inv(s', NextQueue(s, t, s', q))
  {
    if Arrives(s, t) {
      ArriveStep(s, t, s', q);
    } else if Holding(s.pc[t]) && !Holding(s'.pc[t]) {
      ReleaseStep(s, t, s', q);
    } else if Holding(s.pc[t]) {
      HolderStep(s, t, s', q);
    } else if Queued(s.pc[t]) {
      WaiterStep(s, t, s', q);
    } else {
      OutsideStep(s, t, s', q);
    }
  }

  lemma ArriveStep(s: State, t: Tid, s': State, q: seq<Tid>)
    requires Inv(s, q) && Next(s, t, s') && Arrives(s, t)
    ensures |s'.pc| == |s.pc| && Inv(s', q + [t])
  {
    var q' := q + [t];
    assert t !in q;
    forall u | 0 <= u < |s'.pc| ensures u in q' <==> Queued(s'.pc[u]) {
      assert u in q' <==> u in q || u == t;
    }
    assert NodeReset(s, t);
    forall u | 0 <= u < |s'.pc| ensures NodeReset(s', u) {
      assert NodeReset(s, u);
    }
    forall i | 0 < i < |q'| ensures WaiterOk(s', q'[i - 1], q'[i]) {
      assert i < |q| ==> WaiterOk(s, q[i - 1], q[i]);
    }
  }

  // Only the head of the queue holds the lock.
  lemma HolderIsHead(s: State, q: seq<Tid>, t: Tid)
    requires Inv(s, q) && t < |s.pc| && Holding(s.pc[t])
    ensures q != [] && q[0] == t
  {
    var i :| 0 <= i < |q| && q[i] == t;
    forall j | 0 < j < |q| ensures !Holding(s.pc[q[j]]) {
      assert WaiterOk(s, q[j - 1], q[j]);
    }
  }

  // A granting holder hands over to its successor in the queue, which already spins.
  lemma GrantTarget(s: State, q: seq<Tid>, t: Tid)
    requires Inv(s, q) && t < |s.pc| && (s.pc[t].UnlockGrant? || s.pc[t].UnlockLoad?)
    ensures |q| >= 2 && q[0] == t && s.next[t] == Node(q[1])
    ensures s.pc[q[1]] == LockSpin && s.locked[q[1]] == 0
  {
    HolderIsHead(s, q, t);
    if |q| >= 2 {
      assert WaiterOk(s, q[0], q[1]);
    }
  }

  lemma ReleaseStep(s: State, t: Tid, s': State, q: seq<Tid>)
    requires Inv(s, q) && Next(s, t, s') && Holding(s.pc[t]) && !Holding(s'.pc[t])
    ensures |s'.pc| == |s.pc| && q != [] && q[0] == t && Inv(s', q[1..])
  {
    HolderIsHead(s, q, t);
    var q' := q[1..];
    forall u | 0 <= u < |s'.pc| ensures u in q' <==> Queued(s'.pc[u]) {
      assert u in q <==> u == t || u in q';
    }
    if s.pc[t].UnlockGrant? {
      GrantTarget(s, q, t);
    } else {
      assert |q| == 1;
    }
    forall u | 0 <= u < |s'.pc| ensures NodeReset(s', u) {
      assert NodeReset(s, u);
    }
    forall i | 0 < i < |q'| ensures WaiterOk(s', q'[i - 1], q'[i]) {
      assert WaiterOk(s, q[i], q[i + 1]);
    }
  }

  // A linking or spinning thread.
  lemma WaiterStep(s: State, t: Tid, s': State, q: seq<Tid>)
    requires Inv(s, q) && Next(s, t, s') && (s.pc[t].LockLink? || s.pc[t].LockSpin?)
    ensures |s'.pc| == |s.pc| && Inv(s', q)
  {
    var k :| 0 <= k < |q| && q[k] == t;
    if s.pc[t].LockLink? {
      assert k > 0 && WaiterOk(s, q[k - 1], q[k]);
    }
    forall u | 0 <= u < |s'.pc| ensures NodeReset(s', u) {
      assert NodeReset(s, u);
    }
    forall i | 0 < i < |q| ensures WaiterOk(s', q[i - 1], q[i]) {
      assert WaiterOk(s, q[i - 1], q[i]);
    }
  }

  // A holder that does not release.
  lemma HolderStep(s: State, t: Tid, s': State, q: seq<Tid>)
    requires Inv(s, q) && Next(s, t, s') && Holding(s.pc[t]) && Holding(s'.pc[t])
    ensures |s'.pc| == |s.pc| && Inv(s', q)
  {
    HolderIsHead(s, q, t);
    forall u | 0 <= u < |s'.pc| ensures NodeReset(s', u) {
      assert NodeReset(s, u);
    }
    forall i | 0 < i < |q| ensures WaiterOk(s', q[i - 1], q[i]) {
      assert WaiterOk(s, q[i - 1], q[i]);
    }
  }

  lemma OutsideStep(s: State, t: Tid, s': State, q: seq<Tid>)
    requires Inv(s, q) && Next(s, t, s') && !Queued(s.pc[t]) && !Arrives(s, t)
    ensures |s'.pc| == |s.pc| && !Queued(s'.pc[t]) && Inv(s', q)
  {
    assert t !in q;
    forall u | 0 <= u < |s'.pc| ensures NodeReset(s', u) {
      assert NodeReset(s, u);
    }
    forall i | 0 < i < |q| ensures WaiterOk(s', q[i - 1], q[i]) {
      assert WaiterOk(s, q[i - 1], q[i]);
    }
  }

  // ----- What every run guarantees

  function QueueOf(l: Log): seq<Tid>
    requires |l.released| <= |l.arrived|
  {
    l.arrived[|l.released|..]
  }

  predicate HeadHolds(s: State, q: seq<Tid>) {
    q != [] && q[0] < |s.pc| && Holding(s.pc[q[0]])
  }

  // Everything released was granted and acquired before; of the queue only the head can be.
  predicate LogShape(l: Log, q: seq<Tid>, headHolds: bool) {
    && l.arrived == l.released + q
    && l.granted == l.released + (if q == [] then [] else [q[0]])
    && l.acquired == l.released + (if q != [] && headHolds then [q[0]] else [])
  }

  ghost predicate LogOk(s: State, l: Log) {
    && |l.released| <= |l.arrived|
    && Inv(s, QueueOf(l))
    && LogShape(l, QueueOf(l), HeadHolds(s, QueueOf(l)))
  }

  // A thread that acquires without arriving was the head of the queue.
  lemma AwakenedIsHead(s: State, t: Tid, s': State, q: seq<Tid>)
    requires Inv(s, q) && Next(s, t, s') && !Arrives(s, t) && !Holding(s.pc[t]) && Holding(s'.pc[t])
    ensures q != [] && q[0] == t
  {
    var i :| 0 <= i < |q| && q[i] == t;
    forall j | 0 < j < |q| ensures s.locked[q[j]] == 0 {
      assert WaiterOk(s, q[j - 1], q[j]);
    }
  }

  lemma ArrivalEffect(s: State, t: Tid, s': State, q: seq<Tid>)
    requires Inv(s, q) && Next(s, t, s') && Arrives(s, t)
    ensures t < |s'.pc| && (Holding(s'.pc[t]) <==> s.tail.Null?) && (s.tail.Null? <==> q == [])
    ensures HeadHolds(s', q + [t]) <==> HeadHolds(s, q) || q == []
  {
    assert t !in q;
    assert q != [] ==> (q + [t])[0] == q[0];
  }

  lemma ReleaseEffect(s: State, t: Tid, s': State, q: seq<Tid>)
    requires Inv(s, q) && Next(s, t, s') && Holding(s.pc[t]) && !Holding(s'.pc[t])
    ensures q != [] && q[0] == t && HeadHolds(s, q) && !HeadHolds(s', q[1..])
    ensures if s.pc[t].UnlockGrant? then |q| >= 2 && q[1] == s.pc[t].succ else |q| == 1
  {
    HolderIsHead(s, q, t);
    if s.pc[t].UnlockGrant? {
      GrantTarget(s, q, t);
    }
  }

  lemma OtherEffect(s: State, t: Tid, s': State, q: seq<Tid>)
    requires Inv(s, q) && Next(s, t, s') && !Arrives(s, t) && (Holding(s.pc[t]) ==> Holding(s'.pc[t]))
    ensures t < |s'.pc| && !s.pc[t].UnlockGrant?
    ensures HeadHolds(s', q) <==> HeadHolds(s, q) || (!Holding(s.pc[t]) && Holding(s'.pc[t]))
    ensures !Holding(s.pc[t]) && Holding(s'.pc[t]) ==> q != [] && q[0] == t
  {
    if Holding(s.pc[t]) {
      HolderIsHead(s, q, t);
    } else if Holding(s'.pc[t]) {
      AwakenedIsHead(s, t, s', q);
    }
  }

  // What a step does to the queue and its head, as far as the logs can tell.
  predicate Effect(s: State, t: Tid, s': State, q: seq<Tid>)
    requires t < |s.pc| && t < |s'.pc|
  {
    if Arrives(s, t) then
      && (Holding(s'.pc[t]) <==> q == []) && (s.tail.Null? <==> q == [])
      && (HeadHolds(s', q + [t]) <==> HeadHolds(s, q) || q == [])
    else if Holding(s.pc[t]) && !Holding(s'.pc[t]) then
      && q != [] && q[0] == t && HeadHolds(s, q) && !HeadHolds(s', q[1..])
      && if s.pc[t].UnlockGrant? then |q| >= 2 && q[1] == s.pc[t].succ else |q| == 1
    else
      && !s.pc[t].UnlockGrant?
      && (HeadHolds(s', q) <==> HeadHolds(s, q) || (!Holding(s.pc[t]) && Holding(s'.pc[t])))
      && (!Holding(s.pc[t]) && Holding(s'.pc[t]) ==> q != [] && q[0] == t && !HeadHolds(s, q))
  }

  lemma StepEffect(s: State, t: Tid, s': State, q: seq<Tid>)
    requires Inv(s, q) && Next(s, t, s')
    ensures t < |s'.pc| && Effect(s, t, s', q)
  {
    if Arrives(s, t) {
      ArrivalEffect(s, t, s', q);
    } else if Holding(s.pc[t]) && !Holding(s'.pc[t]) {
      ReleaseEffect(s, t, s', q);
    } else {
      OtherEffect(s, t, s', q);
    }
  }

  lemma ShapeStep(s: State, l: Log, t: Tid, s': State, q: seq<Tid>)
    requires t < |s.pc| && t < |s'.pc| && Effect(s, t, s', q)
    requires LogShape(l, q, HeadHolds(s, q))
    ensures var q' := NextQueue(s, t, s', q); LogShape(Observe(l, s, t, s'), q', HeadHolds(s', q'))
  {
    var q' := NextQueue(s, t, s', q);
    if Arrives(s, t) {
      assert l.released + q' == (l.released + q) + [t];
      assert q'[0] == if q == [] then t else q[0];
    } else if Holding(s.pc[t]) && !Holding(s'.pc[t]) {
      assert l.released + q == (l.released + [t]) + q';
      if s.pc[t].UnlockGrant? {
        assert q'[0] == q[1];
      }
    }
  }

  lemma LogStep(s: State, l: Log, t: Tid, s': State)
    requires LogOk(s, l) && Next(s, t, s')
    ensures |s'.pc| == |s.pc| && LogOk(s', Observe(l, s, t, s'))
    ensures QueueOf(Observe(l, s, t, s')) == NextQueue(s, t, s', QueueOf(l))
  {
    var q := QueueOf(l);
    InvStep(s, t, s', q);
    StepEffect(s, t, s', q);
    ShapeStep(s, l, t, s', q);
    LogOkIs(s', Observe(l, s, t, s'), NextQueue(s, t, s', q));
  }

  lemma LogOkIs(s: State, l: Log, q: seq<Tid>)
    requires Inv(s, q) && LogShape(l, q, HeadHolds(s, q))
    ensures LogOk(s, l) && QueueOf(l) == q
  {
    assert l.arrived[|l.released|..] == q;
  }

  lemma {:induction false} RunInvariant(tr: Trace)
    requires IsRun(tr)
    ensures LogOk(Last(tr), LogOf(tr))
  {
    match tr
    case Start(_) =>
    case Then(prev, t, _, s) =>
      RunInvariant(prev);
      LogStep(Last(prev), LogOf(prev), t, s);
  }

  /** Mutual exclusion: at most one thread is between its acquisition and its release. */
  lemma MutualExclusion(tr: Trace, a: Tid, b: Tid)
    requires IsRun(tr)
    requires a < |Last(tr).pc| && b < |Last(tr).pc|
    requires Holding(Last(tr).pc[a]) && Holding(Last(tr).pc[b])
    ensures a == b
  {
    RunInvariant(tr);
    var s, q := Last(tr), QueueOf(LogOf(tr));
    HolderIsHead(s, q, a);
    HolderIsHead(s, q, b);
  }

  /** First come, first served: the lock is granted, acquired and released in the order
      of arrival, each arrival at most once, and never two ahead of the releases. */
  lemma FifoHandoff(tr: Trace)
    requires IsRun(tr)
    ensures var l := LogOf(tr);
      && l.released <= l.acquired <= l.granted <= l.arrived
      && |l.granted| <= |l.released| + 1
      && (|l.granted| == |l.released| ==> l.arrived == l.released)
  {
    RunInvariant(tr);
    ShapeIsFifo(LogOf(tr), QueueOf(LogOf(tr)), HeadHolds(Last(tr), QueueOf(LogOf(tr))));
  }

  lemma ShapeIsFifo(l: Log, q: seq<Tid>, headHolds: bool)
    requires LogShape(l, q, headHolds)
    ensures l.released <= l.acquired <= l.granted <= l.arrived
    ensures |l.granted| <= |l.released| + 1 && (|l.granted| == |l.released| ==> l.arrived == l.released)
  {
    assert q != [] ==> l.arrived == (l.released + [q[0]]) + q[1..];
  }

  /** The wait in unlock is only ever for a thread that has swapped itself in behind the
      holder and whose very next access links it. */
  lemma UnlockWaitsForLinker(tr: Trace, t: Tid)
    requires IsRun(tr) && WellFormed(Last(tr)) && t < |Last(tr).pc|
    requires Last(tr).pc[t].UnlockWait? && Last(tr).next[t].Null?
    ensures exists u :: 0 <= u < |Last(tr).pc| && Last(tr).pc[u] == LockLink(t)
  {
    RunInvariant(tr);
    var s, q := Last(tr), QueueOf(LogOf(tr));
    HolderIsHead(s, q, t);
    assert WaiterOk(s, q[0], q[1]);
  }

  // The nodes that the next access of t stores to.
  function Stores(s: State, t: Tid): set<Tid>
    requires t < |s.pc|
  {
    match s.pc[t]
    case LockNext => {t}
    case LockFlag => {t}
    case TryNext => {t}
    case TryFlag => {t}
    case LockLink(last) => {last}
    case UnlockGrant(succ) => {succ}
    case _ => {}
  }

  // No other node is stored to.
  lemma StoresOnly(s: State, t: Tid, s': State, u: Tid)
    requires WellFormed(s) && Next(s, t, s') && u < |s.pc| && u !in Stores(s, t)
    ensures u < |s'.next| && u < |s'.locked| && s'.next[u] == s.next[u] && s'.locked[u] == s.locked[u]
  {
  }

  /** Node lifetime: a step of t stores to the node of another thread u, whatever the value, only
      while u is between its own swap onto the lock word and its release. */
  lemma NodeLifetime(tr: Trace, t: Tid, s': State, u: Tid)
    requires IsRun(tr) && WellFormed(Last(tr)) && Next(Last(tr), t, s')
    requires u != t && u < |Last(tr).pc| && !Queued(Last(tr).pc[u])
    ensures u !in Stores(Last(tr), t)
    ensures u < |s'.next| && u < |s'.locked|
    ensures s'.next[u] == Last(tr).next[u] && s'.locked[u] == Last(tr).locked[u]
  {
    RunInvariant(tr);
    OthersNodesKept(Last(tr), QueueOf(LogOf(tr)), t, s', u);
  }

  lemma OthersNodesKept(s: State, q: seq<Tid>, t: Tid, s': State, u: Tid)
    requires Inv(s, q) && Next(s, t, s') && u != t && u < |s.pc| && !Queued(s.pc[u])
    ensures u !in Stores(s, t)
    ensures u < |s'.next| && u < |s'.locked| && s'.next[u] == s.next[u] && s'.locked[u] == s.locked[u]
  {
    TouchesQueuedOnly(s, q, t);
    StoresOnly(s, t, s', u);
  }

  lemma TouchesQueuedOnly(s: State, q: seq<Tid>, t: Tid)
    requires Inv(s, q) && t < |s.pc|
    ensures s.pc[t].LockLink? ==> s.pc[t].last < |s.pc| && Queued(s.pc[s.pc[t].last])
    ensures s.pc[t].UnlockGrant? ==> s.pc[t].succ < |s.pc| && s.pc[s.pc[t].succ] == LockSpin
  {
    if s.pc[t].LockLink? {
      var k :| 0 <= k < |q| && q[k] == t;
      assert k > 0 && WaiterOk(s, q[k - 1], q[k]);
    } else if s.pc[t].UnlockGrant? {
      GrantTarget(s, q, t);
    }
  }

  /** No NULL or foreign pointer is ever followed: every thread can always take its next step. */
  lemma NeverFaults(tr: Trace, t: Tid)
    requires IsRun(tr) && WellFormed(Last(tr)) && t < |Last(tr).pc|
    ensures CanStep(Last(tr), t)
  {
    RunInvariant(tr);
    CanStepInv(Last(tr), QueueOf(LogOf(tr)), t);
  }

  lemma CanStepInv(s: State, q: seq<Tid>, t: Tid)
    requires Inv(s, q) && t < |s.pc|
    ensures CanStep(s, t)
  {
    TouchesQueuedOnly(s, q, t);
    if s.pc[t].UnlockLoad? {
      GrantTarget(s, q, t);
    }
  }

  // ----- Progress and bounded waiting

  predicate Waiting(pc: Pc) { pc.LockLink? || pc.LockSpin? }

  // Accesses a queued thread still makes, spinning aside, until it has released.
  function Weight(pc: Pc): nat {
    match pc
    case LockLink(_) => 9
    case LockSpin => 8
    case Critical => 7
    case UnlockPeek => 6
    case UnlockTest => 5
    case UnlockCas => 4
    case UnlockWait => 3
    case UnlockLoad => 2
    case UnlockGrant(_) => 1
    case _ => 0
  }

  ghost function Work(pc: seq<Pc>, qs: seq<Tid>): nat {
    if qs == [] then 0
    else (if qs[0] < |pc| then Weight(pc[qs[0]]) else 0) + Work(pc, qs[1..])
  }

  // The queue up to and including t.
  function Ahead(q: seq<Tid>, t: Tid): seq<Tid> {
    if q == [] then [] else if q[0] == t then [t] else [q[0]] + Ahead(q[1..], t)
  }

  lemma {:induction false} WorkUpdate(pc: seq<Pc>, u: Tid, pcU: Pc, qs: seq<Tid>)
    requires u < |pc|
    requires forall i, j :: 0 <= i < j < |qs| ==> qs[i] != qs[j]
    ensures Work(pc[u := pcU], qs) + (if u in qs then Weight(pc[u]) else 0)
         == Work(pc, qs) + (if u in qs then Weight(pcU) else 0)
  {
    if qs != [] {
      assert u in qs <==> u == qs[0] || u in qs[1..];
      WorkUpdate(pc, u, pcU, qs[1..]);
    }
  }

  lemma {:induction false} WorkBound(pc: seq<Pc>, qs: seq<Tid>)
    ensures Work(pc, qs) <= 9 * |qs|
  {
    if qs != [] {
      WorkBound(pc, qs[1..]);
    }
  }

  lemma {:induction false} AheadPrefix(q: seq<Tid>, t: Tid)
    ensures Ahead(q, t) <= q
    ensures t in q ==> t in Ahead(q, t)
  {
    if q != [] && q[0] != t {
      AheadPrefix(q[1..], t);
      assert t in q ==> t in q[1..];
      assert q == [q[0]] + q[1..];
    }
  }

  lemma {:induction false} AheadAppend(q: seq<Tid>, t: Tid, u: Tid)
    requires t in q
    ensures Ahead(q + [u], t) == Ahead(q, t)
  {
    if q[0] != t {
      assert (q + [u])[1..] == q[1..] + [u];
      AheadAppend(q[1..], t, u);
    }
  }

  lemma OnlyOwnPc(s: State, u: Tid, s': State)
    requires WellFormed(s) && Next(s, u, s')
    ensures u < |s'.pc| && s'.pc == s.pc[u := s'.pc[u]]
    ensures s' != s && Queued(s.pc[u]) ==> Weight(s'.pc[u]) < Weight(s.pc[u])
  {
  }

  // While t waits, useful steps of the threads up to t use up work; no step adds any.
  lemma WorkStep(s: State, u: Tid, s': State, q: seq<Tid>, t: Tid)
    requires Inv(s, q) && Next(s, u, s') && t in q && t < |s.pc|
    requires |s'.pc| == |s.pc| && Waiting(s.pc[t]) && Waiting(s'.pc[t])
    ensures var left, left' := Work(s.pc, Ahead(q, t)), Work(s'.pc, Ahead(NextQueue(s, u, s', q), t));
      left' <= left && (u in Ahead(q, t) && s' != s ==> left' < left)
  {
    AheadPrefix(q, t);
    OnlyOwnPc(s, u, s');
    WorkUpdate(s.pc, u, s'.pc[u], Ahead(q, t));
    if Arrives(s, u) {
      AheadAppend(q, t, u);
      assert u !in q;
    } else if Holding(s.pc[u]) && !Holding(s'.pc[u]) {
      HolderIsHead(s, q, u);
      assert Ahead(q, t) == [u] + Ahead(q[1..], t);
    } else {
      assert u in Ahead(q, t) ==> u in q;
    }
  }

  // The head of the queue or the thread linking itself behind it has a step that is not a spin.
  lemma SomeoneMoves(s: State, q: seq<Tid>)
    requires Inv(s, q) && q != []
    ensures CanStep(s, q[0])
    ensures Step(s, q[0], false) == s ==>
      |q| >= 2 && s.pc[q[0]].UnlockWait? && CanStep(s, q[1]) && Step(s, q[1], false) != s
  {
    CanStepInv(s, q, q[0]);
    if Step(s, q[0], false) == s {
      assert WaiterOk(s, q[0], q[1]);
      CanStepInv(s, q, q[1]);
    }
  }

  /** Progress: while anyone is queued, some queued thread has a step that is not a spin;
      if it is t that waits, some thread no later than t in the queue has. */
  lemma Progress(tr: Trace, t: Tid)
    requires IsRun(tr) && t < |Last(tr).pc| && Queued(Last(tr).pc[t])
    ensures LogOk(Last(tr), LogOf(tr))
    ensures exists u ::
      && 0 <= u < |Last(tr).pc| && Queued(Last(tr).pc[u])
      && CanStep(Last(tr), u) && Step(Last(tr), u, false) != Last(tr)
      && (Waiting(Last(tr).pc[t]) ==> u in Ahead(QueueOf(LogOf(tr)), t))
  {
    RunInvariant(tr);
    var s, q := Last(tr), QueueOf(LogOf(tr));
    assert t in q;
    AheadPrefix(q, t);
    SomeoneMoves(s, q);
    var u := if Step(s, q[0], false) != s then q[0] else q[1];
    assert u in q && Queued(s.pc[u]);
    if Waiting(s.pc[t]) {
      assert q[0] != t ==> Ahead(q, t) == [q[0]] + Ahead(q[1..], t);
      assert u in Ahead(q, t);
    }
  }

  // Useful steps of the threads up to t since t started to wait.
  ghost function WorkDone(tr: Trace, t: Tid): nat
    requires IsRun(tr)
  {
    match tr
    case Start(_) => 0
    case Then(prev, u, _, s) =>
      var l := LogOf(prev);
      if t < |Last(prev).pc| && Waiting(Last(prev).pc[t]) && |l.released| <= |l.arrived| then
        WorkDone(prev, t) + (if u in Ahead(QueueOf(l), t) && s != Last(prev) then 1 else 0)
      else 0
  }

  // One step of a run at whose end t waits; done counts the useful steps before it.
  lemma WaitStep(s: State, q: seq<Tid>, u: Tid, s': State, t: Tid, done: nat)
    requires Inv(s, q) && Next(s, u, s') && |s'.pc| == |s.pc| && Inv(s', NextQueue(s, u, s', q))
    requires t < |s.pc| && Waiting(s'.pc[t])
    requires Waiting(s.pc[t]) ==> done + Work(s.pc, Ahead(q, t)) <= 9 * |s.pc|
    ensures (if Waiting(s.pc[t]) then done + (if u in Ahead(q, t) && s' != s then 1 else 0) else 0)
          + Work(s'.pc, Ahead(NextQueue(s, u, s', q), t)) <= 9 * |s'.pc|
  {
    if Waiting(s.pc[t]) {
      WorkStep(s, u, s', q, t);
    } else {
      WaitBegins(s', NextQueue(s, u, s', q), t);
    }
  }

  lemma WaitBegins(s: State, q: seq<Tid>, t: Tid)
    requires Inv(s, q)
    ensures Work(s.pc, Ahead(q, t)) <= 9 * |s.pc|
  {
    AheadPrefix(q, t);
    DistinctFits(q, |s.pc|);
    WorkBound(s.pc, Ahead(q, t));
  }

  /** Bounded waiting: a thread waits for at most nine useful steps per thread in the system,
      all of them by threads that arrived no later than it did. */
  lemma {:induction false} BoundedWaiting(tr: Trace, t: Tid)
    requires IsRun(tr) && t < |Last(tr).pc| && Waiting(Last(tr).pc[t])
    ensures LogOk(Last(tr), LogOf(tr))
    ensures WorkDone(tr, t) + Work(Last(tr).pc, Ahead(QueueOf(LogOf(tr)), t)) <= 9 * |Last(tr).pc|
  {
    match tr
    case Start(_) =>
    case Then(prev, u, _, s) =>
      RunInvariant(prev);
      OnlyOwnPc(Last(prev), u, s);
      if Waiting(Last(prev).pc[t]) {
        BoundedWaiting(prev, t);
      }
      LogStep(Last(prev), LogOf(prev), u, s);
      WaitStep(Last(prev), QueueOf(LogOf(prev)), u, s, t, WorkDone(prev, t));
  }
}
