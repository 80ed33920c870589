/**
 The queues of condition variables over whole runs (src/libc/pthread/cond.rs:50-160,
 src/environment.rs:1180-1201): threads leave them in the order in which they came.
 */
module Queues {
  import opened Prelude
  import opened Threads
  import opened Scheduler
  import opened Runs
  import opened RunInvariant
  import opened Waiters
  import opened Needs
  import opened Fairness
  import opened Conditions
  import opened Decisions

  // ---------------------------------------------------------------- one decision

  /** Thread `t` waits for condition variable `c`, and the decision finds that it need not any more. */
  ghost predicate Leaves(e: Env, initial: ThreadId, clock: Clock, t: ThreadId, c: nat)
    requires e.current < |e.threads|
  {
    t < |e.threads| && e.threads[t].blockedBy == OnCondition(c) && Freed(e, initial, clock, t)
  }

  /** From `c`'s queue the decision has taken its front, which is exactly those of its waiters that go on. */
  ghost predicate QueueServed(e: Env, initial: ThreadId, clock: Clock, n: Env, c: nat)
    requires e.current < |e.threads| && c in e.conds && c in n.conds
  {
    var p := |e.conds[c].waking| - |n.conds[c].waking|;
    && 0 <= p && n.conds[c] == e.conds[c].(waking := e.conds[c].waking[p..])
    && forall t: ThreadId :: t in e.conds[c].waking[..p] <==> Leaves(e, initial, clock, t, c)
  }

  ghost predicate QueuesServed(e: Env, initial: ThreadId, clock: Clock, n: Env)
    requires e.current < |e.threads|
  {
    n.conds.Keys == e.conds.Keys && forall c :: c in e.conds ==> QueueServed(e, initial, clock, n, c)
  }

  /** The first `k` candidates include exactly the condition waiters that go on. */
  ghost predicate FreedAre(e: Env, initial: ThreadId, clock: Clock, k: nat)
    requires e.current < |e.threads|
  {
    forall t: ThreadId :: t < |e.threads| && e.threads[t].blockedBy.OnCondition? ==>
      (Freed(e, initial, clock, t) <==> WokenBefore(e, t, k))
  }

  lemma {:induction false} ServedByScan(e: Env, initial: ThreadId, clock: Clock, f: Env, k: nat, c: nat)
    requires e.current < |e.threads| && c in e.conds && c in f.conds && QueueAt(e, f, c, k)
    requires FreedAre(e, initial, clock, k)
    ensures QueueServed(e, initial, clock, f, c)
  {
    hide Freed, InTurn, TurnHasCome, Place;
    var w := e.conds[c].waking;
    var p := |w| - |f.conds[c].waking|;
    forall t: ThreadId ensures t in w[..p] <==> Leaves(e, initial, clock, t, c) {
      if t in w[..p] {
        var q :| 0 <= q < p && w[q] == t;
        InTurnHasTurn(e, c, q);
      }
      if Leaves(e, initial, clock, t, c) {
        var q := TurnOf(e, t);
        ServedSoFar(e, f, c, k, q);
        assert w[..p][q] == t;
      }
    }
  }

  lemma TurnOf(e: Env, t: ThreadId) returns (q: nat)
    requires e.current < |e.threads| && TurnHasCome(e, t)
    ensures InTurn(e, e.threads[t].blockedBy.cond, q) && q < |e.conds[e.threads[t].blockedBy.cond].waking|
    ensures e.conds[e.threads[t].blockedBy.cond].waking[q] == t
  {
    q :| InTurn(e, e.threads[t].blockedBy.cond, q) && e.conds[e.threads[t].blockedBy.cond].waking[q] == t;
  }

  lemma ServedSoFar(e: Env, f: Env, c: nat, k: nat, q: nat)
    requires e.current < |e.threads| && c in e.conds && c in f.conds && QueueAt(e, f, c, k) && InTurn(e, c, q)
    requires e.conds[c].waking[q] < |e.threads| && Place(e, e.conds[c].waking[q]) < k
    ensures q < |e.conds[c].waking| - |f.conds[c].waking|
  {
    hide InTurn;
    var p := |e.conds[c].waking| - |f.conds[c].waking|;
    if p < q { TurnsBefore(e, c, q, p); }
  }

  lemma {:induction false} FreedBeforeFirst(e: Env, initial: ThreadId, clock: Clock, t: ThreadId)
    requires e.current < |e.threads| && First(e, initial, clock, t)
    ensures FreedAre(e, initial, clock, Place(e, t))
  {
    hide Freed, Reached, Place, WokenBefore;
    forall u: ThreadId | u < |e.threads| && e.threads[u].blockedBy.OnCondition?
      ensures Freed(e, initial, clock, u) <==> WokenBefore(e, u, Place(e, t))
    {
      FreedBefore(e, initial, clock, t, u);
    }
  }

  lemma {:induction false} ScanServes(e: Env, initial: ThreadId, clock: Clock)
    requires e.current < |e.threads| && NothingDangles(e) && !Scan(e, initial, clock, 0, NothingFound).ScanPanic?
    ensures QueuesServed(e, initial, clock, Scan(e, initial, clock, 0, NothingFound).env)
  {
    hide Scan, Freed, First, Place, LastWoken, QueueAt, QueueServed, FreedAre, NothingDangles, RelockOk, ScanFrees;
    var f := Scan(e, initial, clock, 0, NothingFound).env;
    var k := |e.threads|;
    if t: ThreadId :| First(e, initial, clock, t) {
      FirstScan(e, initial, clock, t);
      FreedBeforeFirst(e, initial, clock, t);
      FirstEnds(e, initial, clock, t);
      k := Place(e, t);
    } else {
      QuietScanIs(e, initial, clock);
      FirstOrQuiet(e, initial, clock, |e.threads|);
      FreedInQuiet(e, initial, clock);
    }
    forall c | c in e.conds ensures QueueServed(e, initial, clock, f, c) { ServedByScan(e, initial, clock, f, k, c); }
  }

  lemma {:induction false} FreedInQuiet(e: Env, initial: ThreadId, clock: Clock)
    requires e.current < |e.threads| && Quiet(e, initial, clock, |e.threads|)
    ensures FreedAre(e, initial, clock, |e.threads|)
  {
    hide Freed, Quiet, WokenBefore;
    forall u: ThreadId ensures Freed(e, initial, clock, u) <==> WokenBefore(e, u, |e.threads|) {
      FreedByNobody(e, initial, clock, u);
    }
  }

  /** Switching and relocking leave the condition variables alone. */
  lemma {:induction false} DecideKeepsConds(e: Env, initial: ThreadId, clock: Clock)
    requires e.current < |e.threads| && !Decide(e, initial, clock).Stop?
    ensures !Scan(e, initial, clock, 0, NothingFound).ScanPanic?
    ensures Decide(e, initial, clock).env.conds == Scan(e, initial, clock, 0, NothingFound).env.conds
  {
    hide Scan, SwitchThread, RelockMutex;
    ScanWakes(e, initial, clock, 0, NothingFound);
    var r := Scan(e, initial, clock, 0, NothingFound);
    if r.Picked? {
      PickKeepsConds(r.env, r.thread, r.relock);
    } else if r.ReturnTo? {
      SwitchOnly(Unblock(r.env, r.thread), r.thread);
    }
  }

  lemma {:induction false} PickKeepsConds(e1: Env, t: ThreadId, relock: Option<MutexId>)
    requires e1.current < |e1.threads| && t < |e1.threads| && (t != e1.current ==> SwitchThread(e1, t).Fine?)
    ensures var e2 := if t != e1.current then SwitchThread(e1, t).env else e1;
            && e2.conds == e1.conds && e2.current == t && |e2.threads| == |e1.threads|
            && (relock.Some? && RelockMutex(e2, relock.value).Fine? ==>
                 RelockMutex(e2, relock.value).env.conds == e1.conds)
  {
    var e2 := if t != e1.current then SwitchThread(e1, t).env else e1;
    if relock.Some? && RelockMutex(e2, relock.value).Fine? { RelockIs(e2, relock.value); }
  }

  /** A decision takes from the front of each queue exactly the waiters that go on. */
  lemma {:induction false} DecisionServesQueues(m: Machine, clock: Clock)
    requires Inv(m) && m.phase.Deciding? && !Step(m, Schedule(clock)).phase.Stopped?
    ensures QueuesServed(m.env, Top(m.frames).initial, clock, Step(m, Schedule(clock)).env)
  {
    hide Scan, Decide, Freed, QueueServed, QueuesServed;
    var e, initial := m.env, Top(m.frames).initial;
    InvariantLeavesNothingDangling(m);
    DecideKeepsConds(e, initial, clock);
    ScanServes(e, initial, clock);
    ServedByConds(e, initial, clock, Scan(e, initial, clock, 0, NothingFound).env, Step(m, Schedule(clock)).env);
  }

  lemma ServedByConds(e: Env, initial: ThreadId, clock: Clock, a: Env, b: Env)
    requires e.current < |e.threads| && QueuesServed(e, initial, clock, a) && b.conds == a.conds
    ensures QueuesServed(e, initial, clock, b)
  {
    forall c | c in e.conds ensures QueueServed(e, initial, clock, b, c) {
      assert QueueServed(e, initial, clock, a, c);
    }
  }

  // ---------------------------------------------------------------- every step, every run

  /** Everybody in `c`'s queue, those signalled first. */
  function Line(e: Env, c: nat): seq<ThreadId> {
    if c in e.conds then e.conds[c].waking + e.conds[c].waiting else []
  }

  /** Who joins `c`'s queue by the event. */
  function Joins(m: Machine, e: Event, c: nat): seq<ThreadId> {
    if e.ConditionWait? && e.cond == c then [m.env.current] else []
  }

  /** Who leaves `c`'s queue by the event: those whom a decision takes from its front. */
  function Goers(m: Machine, e: Event, c: nat): seq<ThreadId>
    requires m.env.current < |m.env.threads|
  {
    var n := Step(m, e);
    if e.Schedule? && c in m.env.conds && c in n.env.conds && |n.env.conds[c].waking| <= |m.env.conds[c].waking|
    then m.env.conds[c].waking[..|m.env.conds[c].waking| - |n.env.conds[c].waking|] else []
  }

  /** How many of `c`'s queue are signalled after an event that is not a decision. */
  function SignalledAfter(m: Machine, e: Event, c: nat): nat
    requires c in m.env.conds
  {
    var h := m.env.conds[c];
    if e == ConditionBroadcast(c) then |h.waking| + |h.waiting|
    else if e == ConditionSignal(c) && h.waiting != [] then |h.waking| + 1
    else |h.waking|
  }

  ghost predicate QueueMoves(m: Machine, e: Event, n: Machine, c: nat) {
    && Line(n.env, c) == Line(m.env, c) + Joins(m, e, c)
    && (c in n.env.conds <==> (c in m.env.conds && e != ConditionDestroy(c)) || e == ConditionInit(c))
    && (e == ConditionDestroy(c) ==> Line(m.env, c) == [])
    && (c in m.env.conds && c in n.env.conds ==>
          && |n.env.conds[c].waking| == SignalledAfter(m, e, c)
          && n.env.conds[c].currMutex ==
               if e.ConditionWait? && e.cond == c then Some(e.id) else m.env.conds[c].currMutex)
  }

  lemma {:induction false} SignalMovesQueue(m: Machine, e: Event, c: nat)
    requires m.env.current < |m.env.threads| && (e.ConditionSignal? || e.ConditionBroadcast?)
    requires !m.phase.Stopped? && !HostStep(m, e).phase.Stopped?
    ensures QueueMoves(m, e, HostStep(m, e), c)
  {
    if e.ConditionSignal? && e.cond == c && m.env.conds[c].waiting != [] {
      var w := m.env.conds[c].waiting;
      assert w == [w[0]] + w[1..];
    }
  }

  lemma {:induction false} ConditionEventMovesQueue(m: Machine, e: Event, c: nat)
    requires m.env.current < |m.env.threads| && (e.ConditionInit? || e.ConditionDestroy?)
    requires !m.phase.Stopped? && !HostStep(m, e).phase.Stopped?
    ensures QueueMoves(m, e, HostStep(m, e), c)
  {
  }

  lemma {:induction false} WaitMovesQueue(m: Machine, e: Event, c: nat)
    requires m.env.current < |m.env.threads| && e.ConditionWait?
    requires !m.phase.Stopped? && !HostStep(m, e).phase.Stopped?
    ensures QueueMoves(m, e, HostStep(m, e), c)
  {
    hide UnlockMutex;
    if UnlockMutex(m.env, e.id).Fine? { UnlockLeaves(m.env, e.id); }
  }

  lemma {:induction false} OtherEventKeepsConds(m: Machine, e: Event)
    requires Inv(m) && Enabled(m, e) && !e.Schedule? && !IsConditionEvent(e) && !Step(m, e).phase.Stopped?
    ensures Step(m, e).env.conds == m.env.conds
  {
    hide HostStep, StacksOk;
    assert ThreadOk(m, m.env.current);
    if e.Create? {
      CreateKeepsConds(m, e);
    } else if MutexEvent(e) {
      MutexEventKeepsConds(m, e);
    } else {
      PlainEventKeepsConds(m, e);
    }
  }

  lemma {:induction false} CreateKeepsConds(m: Machine, e: Event)
    requires m.env.current < |m.env.threads| && m.env.threads[m.env.current].context.None? && e.Create?
    requires !m.phase.Stopped? && !HostStep(m, e).phase.Stopped?
    ensures HostStep(m, e).env.conds == m.env.conds
  {
    NewThreadIs(m.env, e.start, e.userData, e.size, e.base);
  }

  lemma {:induction false} MutexEventKeepsConds(m: Machine, e: Event)
    requires m.env.current < |m.env.threads| && MutexEvent(e) && !e.ConditionWait?
    requires !m.phase.Stopped? && !HostStep(m, e).phase.Stopped?
    ensures HostStep(m, e).env.conds == m.env.conds
  {
    hide LockMutex;
    if e.MutexLock? && LockMutex(m.env, e.id).Fine? { LockIs(m.env, e.id); }
  }

  lemma {:induction false} PlainEventKeepsConds(m: Machine, e: Event)
    requires m.env.current < |m.env.threads| && !e.Schedule? && !e.Create? && !MutexEvent(e) && !IsConditionEvent(e)
    ensures Step(m, e).env.conds == m.env.conds
  {
    hide HostStep, Scheduled;
    if HostEvent(e) {
      if IsWaitEvent(e) { WaitEventKeepsConds(m, e); } else { StackEventKeepsConds(m, e); }
    }
  }

  lemma {:induction false} WaitEventKeepsConds(m: Machine, e: Event)
    requires m.env.current < |m.env.threads| && IsWaitEvent(e)
    ensures HostStep(m, e).env.conds == m.env.conds
  {
  }

  lemma {:induction false} StackEventKeepsConds(m: Machine, e: Event)
    requires m.env.current < |m.env.threads| && StackEvent(e)
    ensures HostStep(m, e).env.conds == m.env.conds
  {
    hide LockMutex, UnlockMutex, InitMutex, DestroyMutex, CondWait, NewThread, SemDecrement, BlockCurrent;
  }

  lemma NothingMovesInQueue(m: Machine, e: Event, n: Machine, c: nat)
    requires n.env.conds == m.env.conds && !IsConditionEvent(e)
    ensures QueueMoves(m, e, n, c)
  {
  }

  /** Outside decisions a queue only grows at its end, and signals move its middle mark. */
  lemma {:induction false} StepMovesQueue(m: Machine, e: Event, c: nat)
    requires Inv(m) && Enabled(m, e) && !e.Schedule? && !Step(m, e).phase.Stopped?
    ensures QueueMoves(m, e, Step(m, e), c)
  {
    hide HostStep, StacksOk, ThreadOk, QueueMoves;
    if e.ConditionWait? {
      WaitMovesQueue(m, e, c);
    } else if e.ConditionSignal? || e.ConditionBroadcast? {
      SignalMovesQueue(m, e, c);
    } else if IsConditionEvent(e) {
      ConditionEventMovesQueue(m, e, c);
    } else {
      OtherEventKeepsConds(m, e);
      NothingMovesInQueue(m, e, Step(m, e), c);
    }
  }

  lemma {:induction false} ServedLine(e: Env, initial: ThreadId, clock: Clock, n: Env, c: nat)
    requires e.current < |e.threads| && QueuesServed(e, initial, clock, n)
    ensures c in e.conds <==> c in n.conds
    ensures c in e.conds ==>
              && |n.conds[c].waking| <= |e.conds[c].waking|
              && e.conds[c].waking[..|e.conds[c].waking| - |n.conds[c].waking|] + Line(n, c) == Line(e, c)
  {
    hide Leaves;
    if c in e.conds { assert QueueServed(e, initial, clock, n, c); }
  }

  /** What leaves the queue and what stays are what was in it and what joins. */
  lemma {:induction false} StepKeepsLine(m: Machine, e: Event, c: nat)
    requires Inv(m) && Enabled(m, e) && !Step(m, e).phase.Stopped?
    ensures Goers(m, e, c) + Line(Step(m, e).env, c) == Line(m.env, c) + Joins(m, e, c)
  {
    hide Step, StacksOk, ThreadOk, QueuesServed, Line;
    if e.Schedule? {
      DecisionServesQueues(m, e.clock);
      ServedLine(m.env, Top(m.frames).initial, e.clock, Step(m, e).env, c);
      NoLine(m.env, c);
      NoLine(Step(m, e).env, c);
    } else {
      StepMovesQueue(m, e, c);
    }
  }

  lemma NoLine(e: Env, c: nat)
    ensures c !in e.conds ==> Line(e, c) == []
  {
  }

  function AllGoers(m: Machine, es: seq<Event>, c: nat): seq<ThreadId>
    decreases |es|
  {
    if es == [] || m.env.current >= |m.env.threads| then []
    else Goers(m, es[0], c) + AllGoers(Step(m, es[0]), es[1..], c)
  }

  function AllJoiners(m: Machine, es: seq<Event>, c: nat): seq<ThreadId>
    decreases |es|
  {
    if es == [] || m.env.current >= |m.env.threads| then []
    else Joins(m, es[0], c) + AllJoiners(Step(m, es[0]), es[1..], c)
  }

  /**
   First come, first served: over every run, those who have left a condition variable's queue and then
   those still in it are, in order, those who were in it and then those who have joined it since.
   */
  lemma {:induction false} FirstComeFirstServed(m: Machine, es: seq<Event>, c: nat)
    requires Inv(m) && Legal(m, es) && !Run(m, es).phase.Stopped?
    ensures AllGoers(m, es, c) + Line(Run(m, es).env, c) == Line(m.env, c) + AllJoiners(m, es, c)
    decreases |es|
  {
    hide Step, Line, Joins, Goers;
    if es != [] {
      var e, n := es[0], Step(m, es[0]);
      StepKeeps(m, e);
      StepKeepsLine(m, e, c);
      FirstComeFirstServed(n, es[1..], c);
      var gone, line := AllGoers(n, es[1..], c), Line(Run(n, es[1..]).env, c);
      assert Goers(m, e, c) + gone + line == Goers(m, e, c) + (gone + line);
      assert Goers(m, e, c) + (Line(n.env, c) + AllJoiners(n, es[1..], c))
             == Goers(m, e, c) + Line(n.env, c) + AllJoiners(n, es[1..], c);
    }
  }
}
