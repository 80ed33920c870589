/**
 Waits over whole runs (src/environment.rs:679-886, 970-1247): when a thread begins to wait, what it
 then waits for, and which decision ends its wait.
 */
module WaitRuns {
  import opened Prelude
  import opened Threads
  import opened Scheduler
  import opened Runs
  import opened RunInvariant
  import opened Waiters
  import opened Needs
  import opened Decisions

  predicate IsBlocked(m: Machine, t: ThreadId, b: Block) {
    t < |m.env.threads| && m.env.threads[t].blockedBy == b && !b.NotBlocked?
  }

  lemma {:induction false} SemaphoreEventKeepsBlock(m: Machine, e: Event)
    requires m.env.current < |m.env.threads| && SemaphoreEvent(e)
    requires !m.env.threads[m.env.current].blockedBy.NotBlocked?
    ensures HostStep(m, e).env.threads == m.env.threads
  {
  }

  /** Neither host functions nor guest code ends any wait. */
  lemma {:induction false} StepKeepsBlock(m: Machine, e: Event, t: ThreadId, b: Block)
    requires Inv(m) && Enabled(m, e) && !e.Schedule? && !Step(m, e).phase.Stopped? && IsBlocked(m, t, b)
    ensures IsBlocked(Step(m, e), t, b)
  {
    hide HostStep;
    assert ThreadOk(m, t) && ThreadOk(m, m.env.current);
    if HostEvent(e) {
      HostEventMoves(m, e);
      if e.Create? {
        CreateUses(m, e);
      } else if MutexEvent(e) {
        MutexEventMoves(m, e);
      } else if SemaphoreEvent(e) {
        if t == m.env.current { SemaphoreEventKeepsBlock(m, e); }
      } else if StackEvent(e) {
        StackEventMoves(m, e);
      } else {
        OtherHostEventMoves(m, e);
      }
    } else {
      GuestStepMoves(m, e);
    }
  }

  /** What the running thread, waiting for nothing before, waits for after an event that is not a decision. */
  function WaitsNext(m: Machine, e: Event): Block
    requires m.env.current < |m.env.threads|
  {
    match e
    case Sleep(until) => Sleeping(until)
    case Join(joinee, ptr) => Joining(joinee, ptr)
    case ConditionWait(c, _) => OnCondition(c)
    case MutexLock(id) =>
      if id in m.env.mutexes && m.env.mutexes[id].locked.Some? &&
        m.env.mutexes[id].locked.value.owner != m.env.current then OnMutex(id) else NotBlocked
    case SemaphoreWait(s, wait) =>
      if wait && s in m.env.sems && m.env.sems[s].value <= 0 then OnSemaphore(s) else NotBlocked
    case SvcReturnToHost =>
      if m.frames != [] && Top(m.frames).initial != m.env.current then DeferredReturn else NotBlocked
    case _ => NotBlocked
  }

  lemma {:induction false} LockWaitsNext(m: Machine, e: Event)
    requires m.env.current < |m.env.threads| && m.env.threads[m.env.current].blockedBy.NotBlocked? && MutexEvent(e)
    requires !m.phase.Stopped? && !HostStep(m, e).phase.Stopped?
    ensures HostStep(m, e).env.current == m.env.current < |HostStep(m, e).env.threads|
    ensures HostStep(m, e).env.threads[m.env.current].blockedBy == WaitsNext(m, e)
  {
    hide CondWait, LockMutex;
    if e.ConditionWait? {
      if CondWait(m.env, e.cond, e.id).Fine? { CondWaitIs(m.env, e.cond, e.id); }
    } else if e.MutexLock? {
      LockWaits(m.env, e.id);
    }
  }

  lemma {:induction false} LockWaits(e: Env, id: MutexId)
    requires e.current < |e.threads| && e.threads[e.current].blockedBy.NotBlocked?
    ensures LockMutex(e, id).Fine? ==>
              var n := LockMutex(e, id).env;
              && n.current == e.current < |n.threads|
              && n.threads[e.current].blockedBy ==
                   if id in e.mutexes && e.mutexes[id].locked.Some? && e.mutexes[id].locked.value.owner != e.current
                   then OnMutex(id) else NotBlocked
  {
  }

  lemma {:induction false} BlockedWaitsNext(m: Machine, e: Event)
    requires m.env.current < |m.env.threads| && m.env.threads[m.env.current].blockedBy.NotBlocked? && IsWaitEvent(e)
    requires !m.phase.Stopped? && !HostStep(m, e).phase.Stopped?
    ensures HostStep(m, e).env.current == m.env.current < |HostStep(m, e).env.threads|
    ensures HostStep(m, e).env.threads[m.env.current].blockedBy == WaitsNext(m, e)
  {
  }

  lemma {:induction false} ConditionWaitsNext(m: Machine, e: Event)
    requires m.env.current < |m.env.threads| && m.env.threads[m.env.current].blockedBy.NotBlocked?
    requires IsConditionEvent(e) && !e.ConditionWait?
    requires !m.phase.Stopped? && !HostStep(m, e).phase.Stopped?
    ensures HostStep(m, e).env.current == m.env.current < |HostStep(m, e).env.threads|
    ensures HostStep(m, e).env.threads[m.env.current].blockedBy == WaitsNext(m, e)
  {
  }

  lemma {:induction false} GuestWaitsNext(m: Machine, e: Event)
    requires Inv(m) && Enabled(m, e) && !HostEvent(e) && !e.Schedule? && !Step(m, e).phase.Stopped?
    ensures var n := Step(m, e);
            n.env.current == m.env.current < |n.env.threads| &&
            n.env.threads[m.env.current].blockedBy == WaitsNext(m, e)
  {
    hide HostStep, Scheduled, StacksOk;
    assert ThreadOk(m, m.env.current);
  }

  /** A thread begins to wait exactly when it asks for something it cannot have yet, and then for that. */
  lemma {:induction false} BeginsToWait(m: Machine, e: Event)
    requires Inv(m) && Enabled(m, e) && !e.Schedule? && !Step(m, e).phase.Stopped?
    requires m.env.threads[m.env.current].blockedBy.NotBlocked?
    ensures var n, c := Step(m, e), m.env.current;
            && n.env.current == c < |m.env.threads| <= |n.env.threads|
            && (forall t :: 0 <= t < |n.env.threads| ==>
                  n.env.threads[t].blockedBy == if t == c then WaitsNext(m, e)
                    else if t < |m.env.threads| then m.env.threads[t].blockedBy else NotBlocked)
  {
    hide HostStep, WaitsNext, StacksOk;
    assert ThreadOk(m, m.env.current);
    if !HostEvent(e) {
      GuestStepMoves(m, e);
      GuestWaitsNext(m, e);
    } else {
      HostEventMoves(m, e);
      if MutexEvent(e) {
        LockWaitsNext(m, e);
      } else if e.Create? {
        CreateUses(m, e);
        WaitsForNothing(m, e);
      } else if StackEvent(e) {
        StackEventMoves(m, e);
        WaitsForNothing(m, e);
      } else if IsWaitEvent(e) {
        BlockedWaitsNext(m, e);
      } else {
        ConditionWaitsNext(m, e);
      }
    }
  }

  lemma WaitsForNothing(m: Machine, e: Event)
    requires m.env.current < |m.env.threads| && (e.Create? || StackEvent(e))
    ensures WaitsNext(m, e) == NotBlocked
  {
  }

  /** The event is a decision whose scan reaches `t` and finds that it need not wait any more. */
  ghost predicate EndsWait(m: Machine, e: Event, t: ThreadId) {
    e.Schedule? && m.frames != [] && m.env.current < |m.env.threads| &&
      Freed(m.env, Top(m.frames).initial, e.clock, t)
  }

  /** One step ends a wait, whatever it is for, exactly if it is such a decision. */
  lemma {:induction false} WaitEndsIff(m: Machine, e: Event, t: ThreadId, b: Block)
    requires Inv(m) && Enabled(m, e) && !Step(m, e).phase.Stopped? && IsBlocked(m, t, b)
    ensures var n := Step(m, e);
            && t < |n.env.threads|
            && n.env.threads[t].blockedBy == if EndsWait(m, e, t) then NotBlocked else b
  {
    hide Step, Freed, StacksOk, ThreadOk;
    if e.Schedule? { DecisionFreesExactly(m, e.clock); } else { StepKeepsBlock(m, e, t, b); }
  }

  /** In every state of the run `t` waits, for the same thing. */
  ghost predicate WaitsThrough(m: Machine, es: seq<Event>, t: ThreadId, b: Block)
    decreases |es|
  {
    IsBlocked(m, t, b) && (es == [] || m.env.current >= |m.env.threads| || WaitsThrough(Step(m, es[0]), es[1..], t, b))
  }

  /** No event of the run is a decision that finds `t` free. */
  ghost predicate NoneEndsWait(m: Machine, es: seq<Event>, t: ThreadId)
    decreases |es|
  {
    es == [] || m.env.current >= |m.env.threads| ||
      (!EndsWait(m, es[0], t) && NoneEndsWait(Step(m, es[0]), es[1..], t))
  }

  /**
   Over every run a thread keeps waiting for what it waits for, if and only if no decision reaches it
   and finds its wait over: its deadline past, its mutex free, a token in its semaphore, its joinee
   finished, its turn come, or its own frame on top.
   */
  lemma {:induction false} WaitsThroughIff(m: Machine, es: seq<Event>, t: ThreadId, b: Block)
    requires Inv(m) && Legal(m, es) && !Run(m, es).phase.Stopped? && IsBlocked(m, t, b)
    ensures WaitsThrough(m, es, t, b) <==> NoneEndsWait(m, es, t)
    decreases |es|
  {
    hide Step, EndsWait;
    if es != [] {
      StepKeeps(m, es[0]);
      WaitEndsIff(m, es[0], t, b);
      if !EndsWait(m, es[0], t) { WaitsThroughIff(Step(m, es[0]), es[1..], t, b); }
    }
  }
}
