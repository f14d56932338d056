/**
 What a single call of the MCS lock does for its caller: trylock comes back after one
 compare-and-swap, lock comes back only with the lock.
 */
module McsCalls {
  import opened McsLock

  /** The latest call of a thread: whether it was a trylock, the steps of its own since then, the
      first included, whether the lock word was NULL before the fourth of them, and how often the
      thread has since begun and ceased to hold the lock. */
  datatype Call = NoCall | Call(viaTry: bool, steps: nat, sawNull: bool, acquired: nat, released: nat)

  // The call of t after a step of t itself from s to s'.
  function Advance(c: Call, s: State, t: Tid, viaTry: bool, s': State): Call
    requires t < |s.pc| && t < |s'.pc|
  {
    if s.pc[t].Idle? then Call(viaTry, 1, false, 0, 0)
    else if c.NoCall? then c
    else Call(c.viaTry, c.steps + 1, if c.steps == 3 then s.tail.Null? else c.sawNull,
              c.acquired + (if !Holding(s.pc[t]) && Holding(s'.pc[t]) then 1 else 0),
              c.released + (if Holding(s.pc[t]) && !Holding(s'.pc[t]) then 1 else 0))
  }

  ghost function CallOf(tr: Trace, t: Tid): Call
    requires IsRun(tr)
  {
    match tr
    case Start(_) => NoCall
    case Then(prev, u, viaTry, s) =>
      if u == t && t < |s.pc| then Advance(CallOf(prev, t), Last(prev), t, viaTry, s) else CallOf(prev, t)
  }

  // A trylock: three steps to the compare-and-swap, which decides.
  predicate TryOk(pc: Pc, c: Call)
    requires c.Call?
  {
    || (c.steps == 1 && pc.TryNext? && c.acquired == 0 && c.released == 0)
    || (c.steps == 2 && pc.TryFlag? && c.acquired == 0 && c.released == 0)
    || (c.steps == 3 && pc.TryCas? && c.acquired == 0 && c.released == 0)
    || (c.steps == 4 && !c.sawNull && pc.Idle? && c.acquired == 0 && c.released == 0)
    || (c.steps == 4 && c.sawNull && pc.Critical? && c.acquired == 1 && c.released == 0)
    || (c.steps > 4 && c.sawNull && Holding(pc) && c.acquired == 1 && c.released == 0)
    || (c.steps > 4 && c.sawNull && pc.Idle? && c.acquired == 1 && c.released == 1)
  }

  // A lock: nothing but the way to the lock, then holding it, then the release.
  predicate LockOk(pc: Pc, c: Call)
    requires c.Call?
  {
    || ((pc.LockNext? || pc.LockFlag? || pc.LockSwap? || Waiting(pc)) && c.acquired == 0 && c.released == 0)
    || (Holding(pc) && c.acquired == 1 && c.released == 0)
    || (pc.Idle? && c.acquired == 1 && c.released == 1)
  }

  predicate CallOk(pc: Pc, c: Call) {
    if c.NoCall? then pc.Idle? else if c.viaTry then TryOk(pc, c) else LockOk(pc, c)
  }

  lemma CallStep(c: Call, s: State, t: Tid, viaTry: bool)
    requires WellFormed(s) && t < |s.pc| && CanStep(s, t) && CallOk(s.pc[t], c)
    ensures var s' := Step(s, t, viaTry); |s'.pc| == |s.pc| && CallOk(s'.pc[t], Advance(c, s, t, viaTry, s'))
  {
  }

  lemma OthersPcKept(s: State, t: Tid, viaTry: bool, u: Tid)
    requires WellFormed(s) && t < |s.pc| && CanStep(s, t) && u < |s.pc| && u != t
    ensures var s' := Step(s, t, viaTry); |s'.pc| == |s.pc| && s'.pc[u] == s.pc[u]
  {
  }

  lemma {:induction false} CallInvariant(tr: Trace, t: Tid)
    requires IsRun(tr) && t < |Last(tr).pc|
    ensures CallOk(Last(tr).pc[t], CallOf(tr, t))
  {
    match tr
    case Start(_) =>
    case Then(prev, u, viaTry, s) =>
      var s0 := Last(prev);
      OnlyOwnPc(s0, u, s);
      CallInvariant(prev, t);
      if u == t {
        CallStep(CallOf(prev, t), s0, t, viaTry);
      } else {
        OthersPcKept(s0, u, viaTry, t);
      }
  }

  /** Trylock never waits.  Its caller is back after four steps of its own, the call included, with the
      lock exactly if the lock word was NULL before the fourth, and goes on to anything else only if
      it has got the lock. */
  lemma TrylockReturns(tr: Trace, t: Tid)
    requires IsRun(tr) && t < |Last(tr).pc| && CallOf(tr, t).Call? && CallOf(tr, t).viaTry
    ensures var pc, c := Last(tr).pc[t], CallOf(tr, t);
      && !Waiting(pc)
      && (c.steps < 4 ==> !Holding(pc) && !pc.Idle?)
      && (c.steps == 4 ==> if c.sawNull then pc.Critical? else pc.Idle?)
      && (c.steps > 4 ==> c.sawNull)
      && c.acquired == (if c.steps >= 4 && c.sawNull then 1 else 0)
  {
    CallInvariant(tr, t);
  }

  /** Lock comes back only with the lock: its caller is idle again only after it has acquired and
      released, and until it has acquired it is on its way to the lock. */
  lemma LockAcquires(tr: Trace, t: Tid)
    requires IsRun(tr) && t < |Last(tr).pc| && CallOf(tr, t).Call? && !CallOf(tr, t).viaTry
    ensures var pc, c := Last(tr).pc[t], CallOf(tr, t);
      && (pc.Idle? <==> c.acquired == 1 && c.released == 1)
      && (Holding(pc) <==> c.acquired == 1 && c.released == 0)
      && c.released <= c.acquired <= 1
  {
    CallInvariant(tr, t);
  }

  /** A failing trylock leaves the lock word and every node as they were. */
  lemma FailedTrylockTouchesNothing(tr: Trace, t: Tid, s': State)
    requires IsRun(tr) && t < |Last(tr).pc| && CallOf(tr, t).Call? && CallOf(tr, t).viaTry && CallOf(tr, t).steps == 3
    requires WellFormed(Last(tr)) && Next(Last(tr), t, s') && !Last(tr).tail.Null?
    ensures s'.tail == Last(tr).tail && s'.next == Last(tr).next && s'.locked == Last(tr).locked
    ensures t < |s'.pc| && s'.pc[t].Idle?
  {
    CallInvariant(tr, t);
  }
}
