/**
 How deeply each thread holds each mutex (src/environment/mutex.rs:73-248, src/environment.rs:1148-1156,
 1180-1247): over every run it is what the thread has been granted less what it has released. Told
 from the lock in the mutex table before and after a step.
 */
module Depths {
  import opened Prelude
  import opened Threads
  import opened Scheduler
  import opened Runs
  import opened RunInvariant
  import opened Waiters
  import opened Needs
  import opened Decisions
  import opened WaitRuns

  predicate Holds(e: Env, id: MutexId, t: ThreadId) {
    id in e.mutexes && e.mutexes[id].locked.Some? && e.mutexes[id].locked.value.owner == t
  }

  function Depth(e: Env, id: MutexId, t: ThreadId): nat {
    if Holds(e, id, t) then e.mutexes[id].locked.value.count else 0
  }

  /** Mutex numbers are given out in order, and never twice. */
  predicate NumbersOk(e: Env) {
    forall id :: id in e.mutexes ==> id < e.mutexCount
  }

  /** The running thread asks for a mutex that is free, or that it holds and may hold again. */
  predicate Grants(e: Env, id: MutexId) {
    id in e.mutexes && (e.mutexes[id].locked.None? || (Holds(e, id, e.current) && e.mutexes[id].kind.Recursive?))
  }

  /**
   How many times more thread `t` holds mutex `id` after the event: once more when it is granted a
   lock, asked for or taken again as it resumes; once less when it unlocks, or waits on a condition
   variable, holding it.
   */
  ghost function Taken(m: Machine, e: Event, id: MutexId, t: ThreadId): int
    requires m.env.current < |m.env.threads|
  {
    match e
    case MutexLock(i) => One(i == id && t == m.env.current && Grants(m.env, id))
    case MutexUnlock(i) => if i == id && t == m.env.current && Holds(m.env, id, t) then -1 else 0
    case ConditionWait(_, i) => if i == id && t == m.env.current then -1 else 0
    case Schedule(clock) => One(m.frames != [] && Takes(m.env, Top(m.frames).initial, clock, t, id))
    case _ => 0
  }

  lemma {:induction false} LockDepth(e: Env, i: MutexId, id: MutexId, t: ThreadId)
    requires e.current < |e.threads| && LockMutex(e, i).Fine?
    ensures Depth(LockMutex(e, i).env, id, t) == Depth(e, id, t) + One(i == id && t == e.current && Grants(e, id))
  {
  }

  lemma {:induction false} UnlockDepth(e: Env, i: MutexId, id: MutexId, t: ThreadId)
    requires UnlockMutex(e, i).Fine?
    ensures Depth(UnlockMutex(e, i).env, id, t) ==
            Depth(e, id, t) - One(i == id && t == e.current && Holds(e, id, t))
    ensures UnlockMutex(e, i).value.Got? <==> Holds(e, i, e.current)
  {
  }

  lemma {:induction false} DestroyDepth(e: Env, i: MutexId, id: MutexId, t: ThreadId)
    requires DestroyMutex(e, i).Fine?
    ensures Depth(DestroyMutex(e, i).env, id, t) == Depth(e, id, t)
  {
  }

  lemma {:induction false} InitDepth(e: Env, kind: MutexType, id: MutexId, t: ThreadId)
    requires NumbersOk(e) && InitMutex(e, kind).Fine?
    ensures Depth(InitMutex(e, kind).env, id, t) == Depth(e, id, t)
  {
  }

  lemma WaitDepth(e: Env, c: nat, i: MutexId, id: MutexId, t: ThreadId)
    requires e.current < |e.threads| && CondWait(e, c, i).Fine?
    ensures Depth(CondWait(e, c, i).env, id, t) == Depth(e, id, t) - One(i == id && t == e.current)
    ensures Holds(e, i, e.current)
  {
    hide UnlockMutex;
    UnlockDepth(e, i, id, t);
    assert CondWait(e, c, i).env.mutexes == UnlockMutex(e, i).env.mutexes;
  }

  lemma {:induction false} MutexEventDepth(m: Machine, e: Event, id: MutexId, t: ThreadId)
    requires m.env.current < |m.env.threads| && MutexEvent(e) && NumbersOk(m.env) && !HostStep(m, e).phase.Stopped?
    requires !m.phase.Stopped?
    ensures Depth(HostStep(m, e).env, id, t) == Depth(m.env, id, t) + Taken(m, e, id, t)
  {
    hide LockMutex, UnlockMutex, DestroyMutex, InitMutex, CondWait, Depth, Grants;
    match e
    case MutexInit(kind) => InitDepth(m.env, kind, id, t);
    case MutexLock(i) => LockDepth(m.env, i, id, t);
    case MutexUnlock(i) => UnlockDepth(m.env, i, id, t);
    case MutexDestroy(i) => DestroyDepth(m.env, i, id, t);
    case ConditionWait(c, i) => WaitDepth(m.env, c, i, id, t);
  }

  lemma {:induction false} DecisionDepth(m: Machine, clock: Clock, id: MutexId, t: ThreadId)
    requires Inv(m) && m.phase.Deciding? && !Step(m, Schedule(clock)).phase.Stopped?
    ensures Depth(Step(m, Schedule(clock)).env, id, t) ==
            Depth(m.env, id, t) + One(Takes(m.env, Top(m.frames).initial, clock, t, id))
    ensures Takes(m.env, Top(m.frames).initial, clock, t, id) ==> IsFree(m.env, id) && id in m.env.mutexes
  {
    hide Step, Resumes, Records, First, FreesExactly, StacksOk, ThreadOk;
    var e, initial, n := m.env, Top(m.frames).initial, Step(m, Schedule(clock));
    if u: ThreadId :| Resumes(e, initial, clock, u) {
      DecisionForThread(m, clock, u);
      if Takes(e, initial, clock, u, id) { RecordedIsFree(e, initial, clock, u, id); }
      if Takes(e, initial, clock, t, id) { OneResumes(e, initial, clock, t, u); }
    } else {
      DecisionForNobody(m, clock);
    }
  }

  lemma {:induction false} OneResumes(e: Env, initial: ThreadId, clock: Clock, t: ThreadId, u: ThreadId)
    requires e.current < |e.threads| && Resumes(e, initial, clock, t) && Resumes(e, initial, clock, u)
    ensures t == u
  {
    hide First, LastWoken;
    if First(e, initial, clock, t) {
      OneFirst(e, initial, clock, t, u);
    } else {
      OneLast(e, t, u, |e.threads|);
    }
  }

  /** One step changes the depth at which a thread holds a mutex by exactly what it is granted or releases. */
  lemma {:induction false} StepKeepsDepth(m: Machine, e: Event, id: MutexId, t: ThreadId)
    requires Inv(m) && Enabled(m, e) && NumbersOk(m.env) && !Step(m, e).phase.Stopped?
    ensures Depth(Step(m, e).env, id, t) == Depth(m.env, id, t) + Taken(m, e, id, t)
  {
    hide HostStep, Scheduled, Takes, Grants, StacksOk;
    assert ThreadOk(m, m.env.current);
    if e.Schedule? {
      DecisionDepth(m, e.clock, id, t);
    } else if MutexEvent(e) {
      MutexEventDepth(m, e, id, t);
    } else {
      SameTable(m, e);
    }
  }

  /** Every other event leaves the mutex table alone. */
  lemma {:induction false} SameTable(m: Machine, e: Event)
    requires Inv(m) && Enabled(m, e) && !e.Schedule? && !MutexEvent(e) && !Step(m, e).phase.Stopped?
    ensures Step(m, e).env.mutexes == m.env.mutexes
  {
    hide HostStep, StacksOk;
    assert ThreadOk(m, m.env.current);
    if !HostEvent(e) {
      GuestStepMoves(m, e);
    } else if e.Create? {
      CreateUses(m, e);
    } else if SemaphoreEvent(e) {
      SemaphoreEventMoves(m, e);
    } else if StackEvent(e) {
      StackEventMoves(m, e);
    } else {
      OtherHostEventMoves(m, e);
    }
  }

  // ---------------------------------------------------------------- the table itself

  /** What is in the table after a step: what was there, with its kind, but for a mutex just made or destroyed. */
  ghost predicate TableKept(m: Machine, e: Event, n: Machine) {
    && (forall id :: id in n.env.mutexes ==>
         || (id in m.env.mutexes && n.env.mutexes[id].kind == m.env.mutexes[id].kind)
         || (id == m.env.mutexCount && e.MutexInit? && n.env.mutexes[id] == Mutex(e.kind, 0, None)))
    && (forall id :: id in m.env.mutexes ==>
         (id !in n.env.mutexes <==>
          e == MutexDestroy(id) && m.env.mutexes[id].locked.None? && m.env.mutexes[id].waitingCount == 0))
    && n.env.mutexCount == m.env.mutexCount + One(e.MutexInit?)
    && (e.MutexInit? ==> m.env.mutexCount in n.env.mutexes)
  }

  /** The same mutexes, of the same kinds. */
  ghost predicate SameKinds(a: Env, b: Env) {
    && b.mutexes.Keys == a.mutexes.Keys && b.mutexCount == a.mutexCount
    && forall id :: id in a.mutexes ==> b.mutexes[id].kind == a.mutexes[id].kind
  }

  lemma {:induction false} SameKindsKeepTable(m: Machine, e: Event, n: Machine)
    requires SameKinds(m.env, n.env) && !e.MutexInit? && !e.MutexDestroy?
    ensures TableKept(m, e, n)
    ensures NumbersOk(m.env) ==> NumbersOk(n.env)
  {
  }

  lemma {:induction false} LockKeepsKinds(e: Env, id: MutexId)
    requires e.current < |e.threads| && LockMutex(e, id).Fine?
    ensures SameKinds(e, LockMutex(e, id).env)
  {
  }

  lemma {:induction false} UnlockKeepsKinds(e: Env, id: MutexId)
    requires UnlockMutex(e, id).Fine?
    ensures SameKinds(e, UnlockMutex(e, id).env)
  {
  }

  lemma WaitKeepsKinds(e: Env, c: nat, id: MutexId)
    requires e.current < |e.threads| && CondWait(e, c, id).Fine?
    ensures SameKinds(e, CondWait(e, c, id).env)
  {
    hide UnlockMutex;
    UnlockKeepsKinds(e, id);
    var b := UnlockMutex(e, id).env;
    assert CondWait(e, c, id).env.mutexes == b.mutexes && CondWait(e, c, id).env.mutexCount == b.mutexCount;
  }

  lemma {:induction false} MakingKeepsTable(m: Machine, e: Event)
    requires m.env.current < |m.env.threads| && (e.MutexInit? || e.MutexDestroy?) && NumbersOk(m.env)
    requires !m.phase.Stopped? && !HostStep(m, e).phase.Stopped?
    ensures TableKept(m, e, HostStep(m, e)) && NumbersOk(HostStep(m, e).env)
  {
  }

  lemma {:induction false} MutexEventTable(m: Machine, e: Event)
    requires m.env.current < |m.env.threads| && MutexEvent(e) && NumbersOk(m.env)
    requires !m.phase.Stopped? && !HostStep(m, e).phase.Stopped?
    ensures TableKept(m, e, HostStep(m, e)) && NumbersOk(HostStep(m, e).env)
  {
    hide TableKept, NumbersOk, SameKinds, LockMutex, UnlockMutex, CondWait;
    match e
    case MutexInit(_) => MakingKeepsTable(m, e);
    case MutexDestroy(_) => MakingKeepsTable(m, e);
    case MutexLock(i) =>
      LockKeepsKinds(m.env, i);
      SameKindsKeepTable(m, e, HostStep(m, e));
    case MutexUnlock(i) =>
      UnlockKeepsKinds(m.env, i);
      SameKindsKeepTable(m, e, HostStep(m, e));
    case ConditionWait(c, i) =>
      WaitKeepsKinds(m.env, c, i);
      SameKindsKeepTable(m, e, HostStep(m, e));
  }

  lemma {:induction false} SwitchAndRelockCount(e1: Env, t: ThreadId, relock: Option<MutexId>)
    requires e1.current < |e1.threads| && t < |e1.threads| && (t != e1.current ==> SwitchThread(e1, t).Fine?)
    ensures var e2 := if t != e1.current then SwitchThread(e1, t).env else e1;
            && e2.mutexCount == e1.mutexCount && e2.current == t && |e2.threads| == |e1.threads|
            && (relock.Some? && RelockMutex(e2, relock.value).Fine? ==>
                 RelockMutex(e2, relock.value).env.mutexCount == e1.mutexCount)
  {
    var e2 := if t != e1.current then SwitchThread(e1, t).env else e1;
    if relock.Some? && RelockMutex(e2, relock.value).Fine? { RelockIs(e2, relock.value); }
  }

  lemma {:induction false} DecideCount(e: Env, initial: ThreadId, clock: Clock)
    requires e.current < |e.threads| && !Decide(e, initial, clock).Stop?
    ensures Decide(e, initial, clock).env.mutexCount == e.mutexCount
  {
    hide Scan, SwitchThread, RelockMutex;
    ScanWakes(e, initial, clock, 0, NothingFound);
    var r := Scan(e, initial, clock, 0, NothingFound);
    if r.Picked? {
      SwitchAndRelockCount(r.env, r.thread, r.relock);
    } else if r.ReturnTo? {
      SwitchCount(Unblock(r.env, r.thread), r.thread);
    }
  }

  lemma SwitchCount(e: Env, t: ThreadId)
    requires e.current < |e.threads| && t < |e.threads| && SwitchThread(e, t).Fine?
    ensures SwitchThread(e, t).env.mutexCount == e.mutexCount
  {
  }

  lemma {:induction false} OtherEventCount(m: Machine, e: Event)
    requires m.env.current < |m.env.threads| && !MutexEvent(e) && !e.Schedule? && !e.Create?
    ensures Step(m, e).env.mutexCount == m.env.mutexCount
  {
    hide LockMutex, UnlockMutex, InitMutex, DestroyMutex, CondWait, NewThread, Scheduled;
  }

  lemma {:induction false} DecisionTable(m: Machine, clock: Clock)
    requires Inv(m) && m.phase.Deciding? && !Step(m, Schedule(clock)).phase.Stopped?
    ensures SameKinds(m.env, Step(m, Schedule(clock)).env)
  {
    hide Step, Decide, Resumes, Takes, FreesExactly, StacksOk, ThreadOk;
    StepCount(m, clock);
    DecideCount(m.env, Top(m.frames).initial, clock);
    if u: ThreadId :| Resumes(m.env, Top(m.frames).initial, clock, u) {
      DecisionForThread(m, clock, u);
    } else {
      DecisionForNobody(m, clock);
    }
  }

  lemma StepCount(m: Machine, clock: Clock)
    requires m.env.current < |m.env.threads| && m.frames != [] && !Step(m, Schedule(clock)).phase.Stopped?
    ensures var d := Decide(m.env, Top(m.frames).initial, clock);
            !d.Stop? && Step(m, Schedule(clock)).env.mutexCount == d.env.mutexCount
  {
    hide Decide;
  }

  /** Mutexes are made with the kind asked for, never change it, and go away only when destroyed free and unwanted. */
  lemma {:induction false} StepKeepsTable(m: Machine, e: Event)
    requires Inv(m) && Enabled(m, e) && NumbersOk(m.env) && !Step(m, e).phase.Stopped?
    ensures TableKept(m, e, Step(m, e)) && NumbersOk(Step(m, e).env)
  {
    hide HostStep, Scheduled, StacksOk, TableKept, NumbersOk;
    assert ThreadOk(m, m.env.current);
    if MutexEvent(e) {
      MutexEventTable(m, e);
    } else {
      if e.Schedule? {
        DecisionTable(m, e.clock);
      } else {
        SameTable(m, e);
        if e.Create? { CreateCount(m, e); } else { OtherEventCount(m, e); }
      }
      SameKindsKeepTable(m, e, Step(m, e));
    }
  }

  lemma {:induction false} CreateCount(m: Machine, e: Event)
    requires m.env.current < |m.env.threads| && m.env.threads[m.env.current].context.None? && e.Create?
    requires !HostStep(m, e).phase.Stopped? && !m.phase.Stopped?
    ensures HostStep(m, e).env.mutexCount == m.env.mutexCount
  {
    NewThreadIs(m.env, e.start, e.userData, e.size, e.base);
  }

  // ---------------------------------------------------------------- over runs

  /** Everything thread `t` is granted of mutex `id` in a run, less what it releases. */
  ghost function TotalTaken(m: Machine, es: seq<Event>, id: MutexId, t: ThreadId): int
    decreases |es|
  {
    if es == [] || m.env.current >= |m.env.threads| then 0
    else Taken(m, es[0], id, t) + TotalTaken(Step(m, es[0]), es[1..], id, t)
  }

  /**
   Over every run, condition waits included, a thread holds a mutex as often as it has been granted a
   lock on it, asked for or taken again, and has not unlocked it or waited on a condition variable.
   */
  lemma {:induction false} DepthIsConserved(m: Machine, es: seq<Event>, id: MutexId, t: ThreadId)
    requires Inv(m) && Legal(m, es) && NumbersOk(m.env) && !Run(m, es).phase.Stopped?
    ensures Depth(Run(m, es).env, id, t) == Depth(m.env, id, t) + TotalTaken(m, es, id, t)
    ensures NumbersOk(Run(m, es).env)
    decreases |es|
  {
    hide Step, Taken, Depth, NumbersOk;
    if es != [] {
      StepKeeps(m, es[0]);
      StepKeepsDepth(m, es[0], id, t);
      StepKeepsTable(m, es[0]);
      DepthIsConserved(Step(m, es[0]), es[1..], id, t);
    }
  }

  /** A lock is granted only on a mutex that no other thread holds. */
  lemma {:induction false} GrantNeedsFree(m: Machine, e: Event, id: MutexId, t: ThreadId, u: ThreadId)
    requires Inv(m) && Enabled(m, e) && NumbersOk(m.env) && !Step(m, e).phase.Stopped?
    requires Taken(m, e, id, u) > 0 && t != u
    ensures Depth(m.env, id, t) == 0
  {
    hide Step, Takes, StacksOk, ThreadOk;
    if e.Schedule? { DecisionDepth(m, e.clock, id, u); }
  }

  /**
   Mutual exclusion over runs from the start: when a thread is granted a lock, every other thread has
   given back exactly what it had ever been granted; and the mutex is free exactly when all have.
   */
  lemma {:induction false} ExclusionOverRuns(cpu: Cpu, stackLow: u32, exitRoutine: u32, es: seq<Event>, e: Event,
          id: MutexId, t: ThreadId, u: ThreadId)
    requires Legal(Start(cpu, stackLow, exitRoutine), es) && !Run(Start(cpu, stackLow, exitRoutine), es).phase.Stopped?
    requires var m := Run(Start(cpu, stackLow, exitRoutine), es);
             && m.env.current < |m.env.threads| && Enabled(m, e) && !Step(m, e).phase.Stopped?
             && Taken(m, e, id, u) > 0
    requires t != u
    ensures TotalTaken(Start(cpu, stackLow, exitRoutine), es, id, t) == 0
  {
    hide Step, Taken, Enabled;
    var start := Start(cpu, stackLow, exitRoutine);
    StartIsGood(cpu, stackLow, exitRoutine);
    RunKeeps(start, es);
    DepthIsConserved(start, es, id, t);
    GrantNeedsFree(Run(start, es), e, id, t, u);
  }

  /** Whoever holds a mutex keeps it until it has released it as often as it holds it; nobody else is granted it. */
  lemma {:induction false} OwnerKeeps(m: Machine, e: Event, id: MutexId, t: ThreadId)
    requires Inv(m) && Enabled(m, e) && NumbersOk(m.env) && !Step(m, e).phase.Stopped? && Depth(m.env, id, t) > 0
    ensures var n, depth := Step(m, e), Depth(m.env, id, t) + Taken(m, e, id, t);
            && 0 <= depth && id in n.env.mutexes
            && n.env.mutexes[id].locked == if depth == 0 then None else Some(Lock(t, depth))
  {
    hide Step, Taken, StacksOk, ThreadOk, TableKept;
    StepKeepsDepth(m, e, id, t);
    StepKeepsTable(m, e);
    HeldStays(m, e, Step(m, e), id);
    if Depth(m.env, id, t) + Taken(m, e, id, t) == 0 && Step(m, e).env.mutexes[id].locked.Some? {
      var u := Step(m, e).env.mutexes[id].locked.value.owner;
      StepKeepsDepth(m, e, id, u);
      GrantNeedsFree(m, e, id, t, u);
    }
  }

  lemma HeldStays(m: Machine, e: Event, n: Machine, id: MutexId)
    requires TableKept(m, e, n) && id in m.env.mutexes && m.env.mutexes[id].locked.Some?
    ensures id in n.env.mutexes
  {
  }

  /** What the operations answer: how deep the mutex is then held, or why it is refused. */
  lemma {:induction false} Answers(e: Env, id: MutexId)
    requires e.current < |e.threads|
    ensures var r := LockMutex(e, id);
            r.Fine? ==> match r.value
              case Got(n) => n == if Grants(e, id) then Depth(r.env, id, e.current) else 1
              case Errno(why) => why == 11 && Holds(e, id, e.current) && e.mutexes[id].kind.ErrorCheck?
    ensures var r := UnlockMutex(e, id);
            r.Fine? ==> match r.value
              case Got(n) => Holds(e, id, e.current) && n == Depth(r.env, id, e.current)
              case Errno(why) => why == 1 && !Holds(e, id, e.current)
    ensures var r := DestroyMutex(e, id);
            r.Fine? ==> match r.value
              case Got(n) => n == 0 && id !in r.env.mutexes
              case Errno(why) => why == 16 && id in r.env.mutexes
  {
  }
}
