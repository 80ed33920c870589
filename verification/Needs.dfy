/**
 What blocked threads need: the mutexes they will take, and the semaphores they wait for. The guest
 can destroy both under them (src/environment/mutex.rs:85-98, src/libc/semaphore.rs:68-79); the
 scheduler's unwraps about them fail only if it does. Condition waits are allowed throughout.
 */
module Needs {
  import opened Prelude
  import opened Threads
  import opened Scheduler
  import opened Runs
  import opened RunInvariant
  import opened Waiters

  // ---------------------------------------------------------------- what is needed

  predicate Awaits(e: Env, t: ThreadId, s: nat) {
    t < |e.threads| && e.threads[t].blockedBy == OnSemaphore(s)
  }

  /** A thread is blocked on semaphore `s`. */
  ghost predicate Awaited(e: Env, s: nat) { exists t: ThreadId :: Awaits(e, t, s) }

  ghost predicate DestroysAwaited(m: Machine, e: Event) {
    e.SemaphoreDestroy? && Awaited(m.env, e.sem)
  }

  /** Thread `t` will have to take mutex `id` before it goes on. */
  predicate NeedsMutex(e: Env, t: ThreadId, id: MutexId) {
    t < |e.threads| &&
    match e.threads[t].blockedBy
    case OnMutex(i) => i == id
    case OnCondition(c) => c in e.conds && e.conds[c].currMutex == Some(id)
    case _ => false
  }

  ghost predicate Needed(e: Env, id: MutexId) { exists t: ThreadId :: NeedsMutex(e, t, id) }

  /** `destroy_mutex` removes a mutex that a blocked thread will have to take. */
  ghost predicate DestroysNeeded(m: Machine, e: Event) {
    e.MutexDestroy? && e.id in m.env.mutexes && m.env.mutexes[e.id].locked.None? &&
      m.env.mutexes[e.id].waitingCount == 0
    && Needed(m.env, e.id)
  }

  // ---------------------------------------------------------------- semaphores

  ghost predicate SemaphoresThere(e: Env) {
    forall t: ThreadId, s: nat :: Awaits(e, t, s) ==> s in e.sems
  }

  lemma {:induction false} ScanFindsSemaphores(e: Env, initial: ThreadId, clock: Clock, k: nat, found: Found)
    requires NothingDangles(e) && SemaphoresThere(e) && 0 < |e.threads| && k <= |e.threads|
    ensures !Scan(e, initial, clock, k, found).ScanPanic?
    decreases |e.threads| - k
  {
    if k < |e.threads| {
      var i := Candidate(e, k);
      ArmFindsSemaphore(e, i, initial, clock(k));
      match Arm(e, i, initial, clock(k))
      case Skip => ScanFindsSemaphores(e, initial, clock, k + 1, found);
      case NotYet(until) => ScanFindsSemaphores(e, initial, clock, k + 1, found.(next := Earliest(found.next, until)));
      case WakeAndGoOn(e1, id) =>
        ArmWakes(e, i, initial, clock(k));
        WakingLeavesNothingDangling(e, e1);
        WakingKeepsSemaphores(e, e1);
        ScanFindsSemaphores(e1, initial, clock, k + 1, found.(suitable := Some(i), relock := Some(id)));
      case _ =>
    }
  }

  lemma ArmFindsSemaphore(e: Env, i: ThreadId, initial: ThreadId, now: int)
    requires i < |e.threads| && NothingDangles(e) && SemaphoresThere(e)
    ensures !Arm(e, i, initial, now).ArmPanic?
  {
    ArmNeverPanics(e, i, initial, now);
    if e.threads[i].blockedBy.OnSemaphore? { assert Awaits(e, i, e.threads[i].blockedBy.sem); }
  }

  lemma WakingKeepsSemaphores(a: Env, b: Env)
    requires SemaphoresThere(a) && WokenFrom(a, b)
    ensures SemaphoresThere(b)
  {
    forall t: ThreadId, s: nat | Awaits(b, t, s) ensures s in b.sems {
      assert SameOrWoken(a.threads[t], b.threads[t]);
      assert Awaits(a, t, s);
    }
  }

  /** After a decision a thread is blocked as before, or not at all, or on a mutex. */
  lemma {:induction false} DecideBlocks(e: Env, initial: ThreadId, clock: Clock)
    requires e.current < |e.threads| && !Decide(e, initial, clock).Stop?
    ensures var d := Decide(e, initial, clock).env;
            && |d.threads| == |e.threads| && d.sems.Keys == e.sems.Keys
            && forall t :: 0 <= t < |e.threads| ==>
                 var b := d.threads[t].blockedBy; b == e.threads[t].blockedBy || b.NotBlocked? || b.OnMutex?
  {
    ScanWakes(e, initial, clock, 0, NothingFound);
    var r := Scan(e, initial, clock, 0, NothingFound);
    forall t | 0 <= t < |e.threads|
      ensures r.env.threads[t].blockedBy == e.threads[t].blockedBy || r.env.threads[t].blockedBy.NotBlocked?
    {
      assert SameOrWoken(e.threads[t], r.env.threads[t]);
    }
    if r.Picked? { PickedBlocks(r.env, r.thread, r.relock); }
  }

  lemma PickedBlocks(e1: Env, i: ThreadId, relock: Option<MutexId>)
    requires e1.current < |e1.threads| && i < |e1.threads| && (i != e1.current ==> SwitchThread(e1, i).Fine?)
    ensures var e2 := if i != e1.current then SwitchThread(e1, i).env else e1;
            && |e2.threads| == |e1.threads| && e2.sems == e1.sems && e2.current == i
            && (forall t :: 0 <= t < |e1.threads| ==> e2.threads[t].blockedBy == e1.threads[t].blockedBy)
            && (relock.Some? && RelockMutex(e2, relock.value).Fine? ==>
                  var e3 := RelockMutex(e2, relock.value).env;
                  && |e3.threads| == |e1.threads| && e3.sems == e1.sems
                  && forall t :: 0 <= t < |e1.threads| ==>
                       e3.threads[t].blockedBy == e1.threads[t].blockedBy || e3.threads[t].blockedBy.OnMutex?)
  {
    var e2 := if i != e1.current then SwitchThread(e1, i).env else e1;
    if relock.Some? && RelockMutex(e2, relock.value).Fine? { RelockIs(e2, relock.value); }
  }

  lemma {:induction false} ScheduleKeepsSemaphores(m: Machine, clock: Clock)
    requires Inv(m) && m.phase.Deciding? && SemaphoresThere(m.env)
    ensures var n := Step(m, Schedule(clock)); if n.phase.Stopped? then !n.phase.why.WaitedSemaphoreMissing?
            else SemaphoresThere(n.env)
  {
    hide Decide, Scan;
    var initial := Top(m.frames).initial;
    InvariantLeavesNothingDangling(m);
    ScanFindsSemaphores(m.env, initial, clock, 0, NothingFound);
    DecideStops(m.env, initial, clock);
    if !Decide(m.env, initial, clock).Stop? { DecideBlocks(m.env, initial, clock); }
    var n := Step(m, Schedule(clock));
    if !n.phase.Stopped? {
      forall t: ThreadId, s: nat | Awaits(n.env, t, s) ensures s in n.env.sems { assert Awaits(m.env, t, s); }
    }
  }

  /** Why a decision stops: the scan panicked, nothing can run, switching failed, or relocking did. */
  lemma {:induction false} DecideStops(e: Env, initial: ThreadId, clock: Clock)
    requires e.current < |e.threads|
    ensures var d := Decide(e, initial, clock);
            d.Stop? ==>
              || Scan(e, initial, clock, 0, NothingFound) == ScanPanic(d.why)
              || d.why.Deadlock? || d.why.UnknownThread? || d.why.SwitchToSelf? || d.why.ContextMissing? ||
                 d.why.ContextPresent?
              || (d.why.RelockFailed? && Scan(e, initial, clock, 0, NothingFound).Picked?
                  && Scan(e, initial, clock, 0, NothingFound).relock.Some?)
  {
    hide Scan, LockMutex;
  }

  /** Only unlocking can find a count above one, and no other event but a decision stops over a table. */
  lemma {:induction false} HostEventStops(m: Machine, e: Event)
    requires m.env.current < |m.env.threads| && !m.phase.Stopped? && HostEvent(e) && HostStep(m, e).phase.Stopped?
    ensures var why := HostStep(m, e).phase.why;
            && !why.RelockFailed? && !why.WaitedSemaphoreMissing?
            && (why.CountAboveOne? ==>
                  || (e.MutexUnlock? && UnlockMutex(m.env, e.id) == Panicked(CountAboveOne))
                  || (e.ConditionWait? && UnlockMutex(m.env, e.id) == Panicked(CountAboveOne)))
  {
  }

  lemma {:induction false} GuestEventStops(m: Machine, e: Event)
    requires m.env.current < |m.env.threads| && !m.phase.Stopped? && !HostEvent(e) && !e.Schedule? &&
             Step(m, e).phase.Stopped?
    ensures !TablePanic(Step(m, e).phase.why)
  {
    hide HostStep, Scheduled;
  }

  lemma SemaphoreEventKeepsSemaphores(m: Machine, e: Event)
    requires m.env.current < |m.env.threads| && SemaphoreEvent(e) && SemaphoresThere(m.env) && !DestroysAwaited(m, e)
    ensures SemaphoresThere(HostStep(m, e).env)
  {
    var n := HostStep(m, e).env;
    forall t: ThreadId, s: nat | Awaits(n, t, s) ensures s in n.sems {
      if !e.SemaphoreWait? { assert Awaits(m.env, t, s); }
      if Awaits(m.env, t, s) { assert s in m.env.sems; }
    }
  }

  lemma HostEventKeepsSemaphores(m: Machine, e: Event)
    requires Inv(m) && m.phase.Host? && HostEvent(e) && !Step(m, e).phase.Stopped?
    requires SemaphoresThere(m.env) && !DestroysAwaited(m, e)
    ensures SemaphoresThere(Step(m, e).env)
  {
    hide SemaphoresThere;
    assert ThreadOk(m, m.env.current);
    if SemaphoreEvent(e) {
      SemaphoreEventKeepsSemaphores(m, e);
    } else {
      if e.Create? {
        CreateMoves(m.env, e.start, e.userData, e.size, e.base);
      } else if MutexEvent(e) {
        MutexEventMoves(m, e);
      } else if StackEvent(e) {
        StackEventMoves(m, e);
      } else {
        OtherHostEventMoves(m, e);
      }
      MovesKeepSemaphores(m.env, Step(m, e).env);
    }
  }

  /** Nobody starts to wait for a semaphore, and none goes away. */
  lemma MovesKeepSemaphores(a: Env, b: Env)
    requires SemaphoresThere(a) && HostMoves(a, b) && b.sems == a.sems
    requires var x, y := a.threads[a.current].blockedBy, b.threads[a.current].blockedBy; x == y || !y.OnSemaphore?
    ensures SemaphoresThere(b)
  {
    forall t: ThreadId, s: nat | Awaits(b, t, s) ensures s in b.sems { assert Awaits(a, t, s); }
  }

  lemma {:induction false} StepKeepsSemaphores(m: Machine, e: Event)
    requires Inv(m) && Enabled(m, e) && SemaphoresThere(m.env) && !DestroysAwaited(m, e)
    ensures var n := Step(m, e); if n.phase.Stopped? then !n.phase.why.WaitedSemaphoreMissing?
            else SemaphoresThere(n.env)
  {
    hide SemaphoresThere, HostStep, Scheduled;
    if e.Schedule? {
      ScheduleKeepsSemaphores(m, e.clock);
    } else if HostEvent(e) {
      if Step(m, e).phase.Stopped? { HostEventStops(m, e); } else { HostEventKeepsSemaphores(m, e); }
    } else if Step(m, e).phase.Stopped? {
      GuestEventStops(m, e);
    } else {
      GuestStepMoves(m, e);
      MovesKeepSemaphores(m.env, Step(m, e).env);
    }
  }

  /** Some event of the run destroys a semaphore that a thread is blocked on. */
  ghost predicate SomeDestroysAwaited(m: Machine, es: seq<Event>)
    decreases |es|
  {
    es != [] && m.env.current < |m.env.threads| &&
      (DestroysAwaited(m, es[0]) || SomeDestroysAwaited(Step(m, es[0]), es[1..]))
  }

  /** Over every run the scan finds the semaphores it looks for, unless one was destroyed under a waiter. */
  lemma {:induction false} RunFindsSemaphores(m: Machine, es: seq<Event>)
    requires Inv(m) && Legal(m, es) && SemaphoresThere(m.env) && !SomeDestroysAwaited(m, es)
    ensures var n := Run(m, es); if n.phase.Stopped? then !n.phase.why.WaitedSemaphoreMissing?
            else SemaphoresThere(n.env)
    decreases |es|
  {
    hide SemaphoresThere, DestroysAwaited, Step;
    if es != [] {
      StepKeeps(m, es[0]);
      StepKeepsSemaphores(m, es[0]);
      if Step(m, es[0]).phase.Stopped? {
        assert es[1..] == [];
      } else {
        RunFindsSemaphores(Step(m, es[0]), es[1..]);
      }
    }
  }

  // ---------------------------------------------------------------- mutexes

  /** A free mutex is relocked with count 1 if it exists; if it has been destroyed, the relock fails. */
  lemma RelockOfFree(e: Env, id: MutexId)
    requires e.current < |e.threads| && !MutexIsLocked(e, id)
    ensures if id in e.mutexes then
              && RelockMutex(e, id).Fine?
              && var e1 := RelockMutex(e, id).env;
                 && e1 == e.(mutexes := e1.mutexes)
                 && e1.mutexes == e.mutexes[id := e1.mutexes[id]] && e1.mutexes[id].locked == Some(Lock(e.current, 1))
                 && e1.mutexes[id].kind == e.mutexes[id].kind
            else RelockMutex(e, id) == Panicked(RelockFailed)
  {
  }

  ghost predicate MutexesThere(e: Env) {
    forall t: ThreadId, id: MutexId :: NeedsMutex(e, t, id) ==> id in e.mutexes
  }

  /** Whoever is woken for a mutex, or recorded for it, finds it there and free. */
  predicate Takeable(e: Env, relock: Option<MutexId>) {
    relock.Some? ==> relock.value in e.mutexes && !MutexIsLocked(e, relock.value)
  }

  lemma WakingKeepsMutexes(a: Env, b: Env)
    requires MutexesThere(a) && WokenFrom(a, b)
    ensures MutexesThere(b)
  {
    forall t: ThreadId, id: MutexId | NeedsMutex(b, t, id) ensures id in b.mutexes {
      assert SameOrWoken(a.threads[t], b.threads[t]);
      assert NeedsMutex(a, t, id);
    }
  }

  lemma ArmTakes(e: Env, i: ThreadId, initial: ThreadId, now: int)
    requires i < |e.threads| && MutexesThere(e)
    ensures var r := Arm(e, i, initial, now);
            && (r.Wake? ==> Takeable(e, r.relock)) && (r.WakeAndGoOn? ==> Takeable(e, Some(r.mutex)))
  {
    var r := Arm(e, i, initial, now);
    if r.Wake? && r.relock.Some? { assert NeedsMutex(e, i, r.relock.value); }
    if r.WakeAndGoOn? { assert NeedsMutex(e, i, r.mutex); }
  }

  lemma {:induction false} ScanTakes(e: Env, initial: ThreadId, clock: Clock, k: nat, found: Found)
    requires 0 < |e.threads| && k <= |e.threads| && MutexesThere(e) && Takeable(e, found.relock)
    ensures var r := Scan(e, initial, clock, k, found); r.Picked? ==> Takeable(r.env, r.relock)
    decreases |e.threads| - k
  {
    hide Takeable, MutexesThere;
    if k == |e.threads| {
    } else {
      var i := Candidate(e, k);
      ArmTakes(e, i, initial, clock(k));
      ArmWakes(e, i, initial, clock(k));
      match Arm(e, i, initial, clock(k))
      case Skip => ScanTakes(e, initial, clock, k + 1, found);
      case NotYet(until) => ScanTakes(e, initial, clock, k + 1, found.(next := Earliest(found.next, until)));
      case WakeAndGoOn(e1, id) =>
        WakingKeepsMutexes(e, e1);
        StaysTakeable(e, e1, Some(id));
        ScanTakes(e1, initial, clock, k + 1, found.(suitable := Some(i), relock := Some(id)));
      case Wake(e1, relock) =>
        StaysTakeable(e, e1, relock);
        StaysTakeable(e, e1, found.relock);
      case _ =>
    }
  }

  lemma StaysTakeable(e: Env, e1: Env, relock: Option<MutexId>)
    requires e1.mutexes == e.mutexes
    ensures Takeable(e1, relock) == Takeable(e, relock)
  {
  }

  /** What a decision picks can be switched to and given its mutex; every mutex somebody needs is still there. */
  lemma {:induction false} DecideKeepsMutexesThere(e: Env, initial: ThreadId, clock: Clock)
    requires e.current < |e.threads| && MutexesThere(e) && NothingDangles(e)
    ensures var d := Decide(e, initial, clock); if d.Stop? then !d.why.RelockFailed? else MutexesThere(d.env)
  {
    hide Scan, Takeable, MutexesThere, NothingDangles, RelockMutex;
    ScanWakes(e, initial, clock, 0, NothingFound);
    ScanNeverPanics(e, initial, clock, 0, NothingFound);
    assert Takeable(e, None) by { NothingToTake(e); }
    ScanTakes(e, initial, clock, 0, NothingFound);
    DecideStops(e, initial, clock);
    var r := Scan(e, initial, clock, 0, NothingFound);
    if !r.ScanPanic? { WakingKeepsMutexes(e, r.env); }
    if r.Picked? {
      PickedKeepsMutexes(r.env, r.thread, r.relock);
    } else if r.ReturnTo? {
      if SwitchThread(Unblock(r.env, r.thread), r.thread).Fine? { ReturnedKeepsMutexes(r.env, r.thread); }
    }
  }

  lemma NothingToTake(e: Env)
    ensures Takeable(e, None)
  {
  }

  lemma PickedKeepsMutexes(e1: Env, i: ThreadId, relock: Option<MutexId>)
    requires e1.current < |e1.threads| && i < |e1.threads| && MutexesThere(e1) && Takeable(e1, relock)
    ensures i != e1.current && SwitchThread(e1, i).Fine? ==> MutexesThere(SwitchThread(e1, i).env)
    ensures i == e1.current || SwitchThread(e1, i).Fine? ==>
              var e2 := if i != e1.current then SwitchThread(e1, i).env else e1;
              && e2.current < |e2.threads| && MutexesThere(e2)
              && (relock.Some? ==>
                   RelockMutex(e2, relock.value).Fine? && MutexesThere(RelockMutex(e2, relock.value).env))
  {
    hide RelockMutex, SwitchThread;
    if i == e1.current || SwitchThread(e1, i).Fine? {
      var e2 := if i != e1.current then SwitchThread(e1, i).env else e1;
      if i != e1.current { SwitchOnly(e1, i); }
      SameNeeds(e1, e2);
      if relock.Some? {
        RelockOfFree(e2, relock.value);
        SameNeeds(e2, RelockMutex(e2, relock.value).env);
      }
    }
  }

  lemma SwitchOnly(e: Env, i: ThreadId)
    requires e.current < |e.threads| && i < |e.threads| && SwitchThread(e, i).Fine?
    ensures var e2 := SwitchThread(e, i).env;
            && |e2.threads| == |e.threads| && e2.conds == e.conds && e2.mutexes == e.mutexes && e2.current == i
            && forall t :: 0 <= t < |e.threads| ==> e2.threads[t].blockedBy == e.threads[t].blockedBy
  {
  }

  lemma SameNeeds(a: Env, b: Env)
    requires MutexesThere(a) && |b.threads| == |a.threads| && b.conds == a.conds && a.mutexes.Keys <= b.mutexes.Keys
    requires forall t :: 0 <= t < |a.threads| ==> b.threads[t].blockedBy == a.threads[t].blockedBy
    ensures MutexesThere(b)
  {
    forall t: ThreadId, id: MutexId | NeedsMutex(b, t, id) ensures id in b.mutexes { assert NeedsMutex(a, t, id); }
  }

  lemma {:induction false} ReturnedKeepsMutexes(e1: Env, i: ThreadId)
    requires e1.current < |e1.threads| && i < |e1.threads| && MutexesThere(e1)
    requires SwitchThread(Unblock(e1, i), i).Fine?
    ensures MutexesThere(SwitchThread(Unblock(e1, i), i).env)
  {
    hide SwitchThread;
    var u := Unblock(e1, i);
    forall t: ThreadId, id: MutexId | NeedsMutex(u, t, id) ensures id in u.mutexes { assert NeedsMutex(e1, t, id); }
    SwitchOnly(u, i);
    SameNeeds(u, SwitchThread(u, i).env);
  }

  /** No condition variable gets another mutex. */
  predicate SameUses(a: Env, b: Env) {
    forall c :: c in b.conds && b.conds[c].currMutex.Some? ==>
      c in a.conds && a.conds[c].currMutex == b.conds[c].currMutex
  }

  /** Nobody starts to need a mutex, and none goes away. */
  lemma MovesKeepMutexes(a: Env, b: Env)
    requires MutexesThere(a) && HostMoves(a, b) && SameUses(a, b) && a.mutexes.Keys <= b.mutexes.Keys
    requires var x, y := a.threads[a.current].blockedBy, b.threads[a.current].blockedBy;
             x == y || !(y.OnMutex? || y.OnCondition?)
    ensures MutexesThere(b)
  {
    forall t: ThreadId, id: MutexId | NeedsMutex(b, t, id) ensures id in b.mutexes { assert NeedsMutex(a, t, id); }
  }

  lemma {:induction false} StackEventUses(m: Machine, e: Event)
    requires m.env.current < |m.env.threads| && StackEvent(e)
    ensures SameUses(m.env, HostStep(m, e).env)
  {
    hide LockMutex, UnlockMutex, InitMutex, DestroyMutex, CondWait, NewThread, BlockCurrent, SemDecrement;
  }

  lemma {:induction false} SemaphoreEventUses(m: Machine, e: Event)
    requires m.env.current < |m.env.threads| && SemaphoreEvent(e)
    ensures SameUses(m.env, HostStep(m, e).env)
    ensures var b := HostStep(m, e).env.threads;
            m.env.current < |b| && var y := b[m.env.current].blockedBy;
            y == m.env.threads[m.env.current].blockedBy || y.OnSemaphore?
  {
    hide LockMutex, UnlockMutex, InitMutex, DestroyMutex, CondWait, NewThread, BlockCurrent;
  }

  lemma {:induction false} OtherHostEventUses(m: Machine, e: Event)
    requires m.env.current < |m.env.threads| && HostEvent(e) && !e.Create?
    requires !MutexEvent(e) && !SemaphoreEvent(e) && !StackEvent(e)
    ensures SameUses(m.env, HostStep(m, e).env)
  {
    hide LockMutex, UnlockMutex, InitMutex, DestroyMutex, CondWait, NewThread, SemDecrement;
  }

  lemma LockKeepsMutexesThere(e: Env, id: MutexId)
    requires MutexesThere(e) && e.current < |e.threads| && LockMutex(e, id).Fine?
    ensures MutexesThere(LockMutex(e, id).env)
  {
    LockIs(e, id);
    var n := LockMutex(e, id).env;
    assert n.mutexes.Keys == e.mutexes.Keys;
    forall t: ThreadId, i: MutexId | NeedsMutex(n, t, i) ensures i in n.mutexes {
      if t != e.current || n.threads == e.threads { assert NeedsMutex(e, t, i); }
    }
  }

  /** Waiting on a condition variable uses a mutex that is there, and everybody else waiting on it uses the same. */
  lemma {:induction false} CondWaitKeepsMutexesThere(e: Env, c: nat, id: MutexId)
    requires MutexesThere(e) && e.current < |e.threads| && CondWait(e, c, id).Fine?
    requires forall t :: 0 <= t < |e.threads| ==> WaitOk(e, t)
    ensures MutexesThere(CondWait(e, c, id).env)
  {
    hide UnlockMutex, MutexesThere;
    var n := CondWait(e, c, id).env;
    UnlockLeaves(e, id);
    CondWaitIs(e, c, id);
    forall t: ThreadId, i: MutexId | NeedsMutex(n, t, i) ensures i in n.mutexes {
      if t == e.current {
        assert i == id;
      } else {
        assert WaitOk(e, t) && NeedsMutex(e, t, i);
        MutexIsThere(e, t, i);
      }
    }
    assert MutexesThere(n) by { AllThere(n); }
  }

  lemma MutexIsThere(e: Env, t: ThreadId, id: MutexId)
    requires MutexesThere(e) && NeedsMutex(e, t, id)
    ensures id in e.mutexes
  {
  }

  lemma AllThere(e: Env)
    requires forall t: ThreadId, id: MutexId :: NeedsMutex(e, t, id) ==> id in e.mutexes
    ensures MutexesThere(e)
  {
  }

  lemma UnlockLeaves(e: Env, id: MutexId)
    requires UnlockMutex(e, id).Fine?
    ensures id in e.mutexes && UnlockMutex(e, id).env.mutexes.Keys == e.mutexes.Keys
    ensures UnlockMutex(e, id).env == e.(mutexes := UnlockMutex(e, id).env.mutexes)
  {
  }

  lemma DestroyKeepsMutexesThere(m: Machine, e: Event)
    requires m.env.current < |m.env.threads| && e.MutexDestroy? && MutexesThere(m.env) && !DestroysNeeded(m, e)
    ensures MutexesThere(HostStep(m, e).env)
  {
    var n := HostStep(m, e).env;
    forall t: ThreadId, id: MutexId | NeedsMutex(n, t, id) ensures id in n.mutexes {
      assert NeedsMutex(m.env, t, id);
    }
  }

  lemma {:induction false} MutexEventKeepsMutexesThere(m: Machine, e: Event)
    requires Inv(m) && MutexEvent(e) && !HostStep(m, e).phase.Stopped? && MutexesThere(m.env) && !DestroysNeeded(m, e)
    ensures MutexesThere(HostStep(m, e).env)
  {
    hide MutexesThere, DestroysNeeded, LockMutex, UnlockMutex, DestroyMutex, CondWait;
    match e
    case MutexInit(kind) => if InitMutex(m.env, kind).Fine? { SameNeeds(m.env, HostStep(m, e).env); }
    case MutexLock(id) => if LockMutex(m.env, id).Fine? { LockKeepsMutexesThere(m.env, id); }
    case MutexUnlock(id) =>
      if UnlockMutex(m.env, id).Fine? {
        UnlockLeaves(m.env, id);
        SameNeeds(m.env, HostStep(m, e).env);
      }
    case MutexDestroy(id) => DestroyKeepsMutexesThere(m, e);
    case ConditionWait(c, id) =>
      forall t | 0 <= t < |m.env.threads| ensures WaitOk(m.env, t) { assert ThreadOk(m, t); }
      if CondWait(m.env, c, id).Fine? { CondWaitKeepsMutexesThere(m.env, c, id); }
  }

  lemma {:induction false} HostEventKeepsMutexesThere(m: Machine, e: Event)
    requires Inv(m) && m.phase.Host? && HostEvent(e) && !Step(m, e).phase.Stopped?
    requires MutexesThere(m.env) && !DestroysNeeded(m, e)
    ensures MutexesThere(Step(m, e).env)
  {
    hide MutexesThere, DestroysNeeded, SameUses, HostStep;
    assert ThreadOk(m, m.env.current);
    if MutexEvent(e) {
      MutexEventKeepsMutexesThere(m, e);
    } else {
      if e.Create? {
        CreateUses(m, e);
      } else if SemaphoreEvent(e) {
        SemaphoreEventMoves(m, e);
        SemaphoreEventUses(m, e);
      } else if StackEvent(e) {
        StackEventMoves(m, e);
        StackEventUses(m, e);
      } else {
        OtherHostEventMoves(m, e);
        OtherHostEventUses(m, e);
      }
      MovesKeepMutexes(m.env, HostStep(m, e).env);
    }
  }

  lemma {:induction false} CreateUses(m: Machine, e: Event)
    requires m.env.current < |m.env.threads| && m.env.threads[m.env.current].context.None? && e.Create?
    requires !HostStep(m, e).phase.Stopped?
    ensures var n := HostStep(m, e).env;
            && HostMoves(m.env, n) && SameUses(m.env, n) && n.mutexes == m.env.mutexes
            && n.threads[m.env.current] == m.env.threads[m.env.current]
  {
    CreateMoves(m.env, e.start, e.userData, e.size, e.base);
    NewThreadIs(m.env, e.start, e.userData, e.size, e.base);
  }

  lemma {:induction false} GuestEventUses(m: Machine, e: Event)
    requires m.env.current < |m.env.threads| && !HostEvent(e) && !e.Schedule?
    ensures SameUses(m.env, Step(m, e).env)
  {
    hide HostStep, Scheduled;
  }

  lemma {:induction false} ScheduleKeepsMutexesThere(m: Machine, clock: Clock)
    requires Inv(m) && m.phase.Deciding? && MutexesThere(m.env)
    ensures var n := Step(m, Schedule(clock)); if n.phase.Stopped? then !n.phase.why.RelockFailed?
            else MutexesThere(n.env)
  {
    hide Decide, MutexesThere;
    InvariantLeavesNothingDangling(m);
    DecideKeepsMutexesThere(m.env, Top(m.frames).initial, clock);
    var n := Step(m, Schedule(clock));
    var d := Decide(m.env, Top(m.frames).initial, clock);
    if d.ReturnToCaller? && !n.phase.Stopped? { SameNeeds(d.env, n.env); }
  }

  lemma {:induction false} StepKeepsMutexesThere(m: Machine, e: Event)
    requires Inv(m) && Enabled(m, e) && MutexesThere(m.env) && !DestroysNeeded(m, e)
    ensures var n := Step(m, e); if n.phase.Stopped? then !n.phase.why.RelockFailed? else MutexesThere(n.env)
  {
    hide MutexesThere, DestroysNeeded, HostStep, Scheduled, SameUses;
    if e.Schedule? {
      ScheduleKeepsMutexesThere(m, e.clock);
    } else if HostEvent(e) {
      if Step(m, e).phase.Stopped? { HostEventStops(m, e); } else { HostEventKeepsMutexesThere(m, e); }
    } else if Step(m, e).phase.Stopped? {
      GuestEventStops(m, e);
    } else {
      GuestStepMoves(m, e);
      GuestEventUses(m, e);
      MovesKeepMutexes(m.env, Step(m, e).env);
    }
  }

  /** Some event of the run destroys a mutex that a blocked thread will have to take. */
  ghost predicate SomeDestroysNeeded(m: Machine, es: seq<Event>)
    decreases |es|
  {
    es != [] && m.env.current < |m.env.threads| &&
      (DestroysNeeded(m, es[0]) || SomeDestroysNeeded(Step(m, es[0]), es[1..]))
  }

  /**
   Over every run relocking succeeds, condition waits or not, unless a mutex was destroyed that a
   blocked thread needs.
   */
  lemma {:induction false} RunRelocks(m: Machine, es: seq<Event>)
    requires Inv(m) && Legal(m, es) && MutexesThere(m.env) && !SomeDestroysNeeded(m, es)
    ensures var n := Run(m, es); if n.phase.Stopped? then !n.phase.why.RelockFailed? else MutexesThere(n.env)
    decreases |es|
  {
    hide MutexesThere, DestroysNeeded, Step;
    if es != [] {
      StepKeeps(m, es[0]);
      StepKeepsMutexesThere(m, es[0]);
      if Step(m, es[0]).phase.Stopped? {
        assert es[1..] == [];
      } else {
        RunRelocks(Step(m, es[0]), es[1..]);
      }
    }
  }

  // ---------------------------------------------------------------- lock counts

  /** Only recursive mutexes are held more than once. */
  ghost predicate CountsOk(e: Env) {
    forall id :: id in e.mutexes && e.mutexes[id].locked.Some? && e.mutexes[id].locked.value.count > 1 ==>
      e.mutexes[id].kind.Recursive?
  }

  lemma MutexOpsKeepCounts(e: Env, id: MutexId, kind: MutexType)
    requires CountsOk(e) && e.current < |e.threads|
    ensures LockMutex(e, id).Fine? ==> CountsOk(LockMutex(e, id).env)
    ensures if UnlockMutex(e, id).Fine? then CountsOk(UnlockMutex(e, id).env)
            else !UnlockMutex(e, id).why.CountAboveOne?
    ensures DestroyMutex(e, id).Fine? ==> CountsOk(DestroyMutex(e, id).env)
    ensures InitMutex(e, kind).Fine? ==> CountsOk(InitMutex(e, kind).env)
  {
  }

  lemma RelockKeepsCounts(e: Env, id: MutexId)
    requires CountsOk(e) && e.current < |e.threads| && RelockMutex(e, id).Fine?
    ensures CountsOk(RelockMutex(e, id).env)
  {
    hide LockMutex;
    MutexOpsKeepCounts(e, id, Normal);
  }

  lemma {:induction false} CondWaitKeepsCounts(e: Env, c: nat, id: MutexId)
    requires CountsOk(e) && e.current < |e.threads| && CondWait(e, c, id).Fine?
    ensures CountsOk(CondWait(e, c, id).env)
  {
    hide UnlockMutex, CountsOk;
    MutexOpsKeepCounts(e, id, Normal);
    SameCounts(UnlockMutex(e, id).env, CondWait(e, c, id).env);
  }

  lemma SameCounts(a: Env, b: Env)
    requires b.mutexes == a.mutexes
    ensures CountsOk(a) == CountsOk(b)
  {
  }

  lemma {:induction false} DecideKeepsCounts(e: Env, initial: ThreadId, clock: Clock)
    requires e.current < |e.threads| && CountsOk(e) && NothingDangles(e)
    ensures var d := Decide(e, initial, clock); if d.Stop? then !d.why.CountAboveOne? else CountsOk(d.env)
  {
    hide Scan, CountsOk, NothingDangles, RelockMutex;
    ScanWakes(e, initial, clock, 0, NothingFound);
    ScanNeverPanics(e, initial, clock, 0, NothingFound);
    DecideStops(e, initial, clock);
    var r := Scan(e, initial, clock, 0, NothingFound);
    if !r.ScanPanic? { SameCounts(e, r.env); }
    if r.Picked? && (r.thread == r.env.current || SwitchThread(r.env, r.thread).Fine?) {
      var e2 := if r.thread != r.env.current then SwitchThread(r.env, r.thread).env else r.env;
      SameCounts(r.env, e2);
      if r.relock.Some? && RelockMutex(e2, r.relock.value).Fine? { RelockKeepsCounts(e2, r.relock.value); }
    } else if r.ReturnTo? && SwitchThread(Unblock(r.env, r.thread), r.thread).Fine? {
      SameCounts(r.env, SwitchThread(Unblock(r.env, r.thread), r.thread).env);
    }
  }

  lemma {:induction false} MutexEventKeepsCounts(m: Machine, e: Event)
    requires m.env.current < |m.env.threads| && MutexEvent(e) && CountsOk(m.env)
    ensures CountsOk(HostStep(m, e).env)
  {
    hide CountsOk, LockMutex, UnlockMutex, DestroyMutex, InitMutex, CondWait, RelockMutex;
    match e
    case MutexInit(kind) => MutexOpsKeepCounts(m.env, 0, kind);
    case MutexLock(id) => MutexOpsKeepCounts(m.env, id, Normal);
    case MutexUnlock(id) => MutexOpsKeepCounts(m.env, id, Normal);
    case MutexDestroy(id) => MutexOpsKeepCounts(m.env, id, Normal);
    case ConditionWait(c, id) => if CondWait(m.env, c, id).Fine? { CondWaitKeepsCounts(m.env, c, id); }
  }

  lemma {:induction false} HostEventKeepsCounts(m: Machine, e: Event)
    requires Inv(m) && m.phase.Host? && HostEvent(e) && CountsOk(m.env)
    ensures var n := Step(m, e); if n.phase.Stopped? then !n.phase.why.CountAboveOne? else CountsOk(n.env)
  {
    hide CountsOk, HostStep, UnlockMutex;
    assert ThreadOk(m, m.env.current);
    if Step(m, e).phase.Stopped? {
      HostEventStops(m, e);
      if e.MutexUnlock? { MutexOpsKeepCounts(m.env, e.id, Normal); }
      if e.ConditionWait? { MutexOpsKeepCounts(m.env, e.id, Normal); }
    } else if MutexEvent(e) {
      MutexEventKeepsCounts(m, e);
    } else {
      if e.Create? {
        CreateUses(m, e);
      } else if SemaphoreEvent(e) {
        SemaphoreEventMoves(m, e);
      } else if StackEvent(e) {
        StackEventMoves(m, e);
      } else {
        OtherHostEventMoves(m, e);
      }
      SameCounts(m.env, HostStep(m, e).env);
    }
  }

  lemma {:induction false} StepKeepsCounts(m: Machine, e: Event)
    requires Inv(m) && Enabled(m, e) && CountsOk(m.env)
    ensures var n := Step(m, e); if n.phase.Stopped? then !n.phase.why.CountAboveOne? else CountsOk(n.env)
  {
    hide CountsOk, HostStep, Decide;
    if e.Schedule? {
      InvariantLeavesNothingDangling(m);
      DecideKeepsCounts(m.env, Top(m.frames).initial, e.clock);
      var d := Decide(m.env, Top(m.frames).initial, e.clock);
      if !Step(m, e).phase.Stopped? { SameCounts(d.env, Step(m, e).env); }
    } else if HostEvent(e) {
      HostEventKeepsCounts(m, e);
    } else if Step(m, e).phase.Stopped? {
      GuestEventStops(m, e);
    } else {
      GuestStepMoves(m, e);
      SameCounts(m.env, Step(m, e).env);
    }
  }

  /** Over every run, condition waits or not, only recursive mutexes are held more than once, as unlocking asserts. */
  lemma {:induction false} RunKeepsCounts(m: Machine, es: seq<Event>)
    requires Inv(m) && Legal(m, es) && CountsOk(m.env)
    ensures var n := Run(m, es); if n.phase.Stopped? then !n.phase.why.CountAboveOne? else CountsOk(n.env)
    decreases |es|
  {
    hide CountsOk, Step;
    if es != [] {
      StepKeeps(m, es[0]);
      StepKeepsCounts(m, es[0]);
      if Step(m, es[0]).phase.Stopped? {
        assert es[1..] == [];
      } else {
        RunKeepsCounts(Step(m, es[0]), es[1..]);
      }
    }
  }

  // ---------------------------------------------------------------- from the start

  /** Why a run from the start can stop over what threads wait for: the guest destroyed it. */
  lemma {:induction false} DestructionOnly(cpu: Cpu, stackLow: u32, exitRoutine: u32, es: seq<Event>)
    requires Legal(Start(cpu, stackLow, exitRoutine), es)
    ensures var start := Start(cpu, stackLow, exitRoutine); var m := Run(start, es);
            m.phase.Stopped? && TablePanic(m.phase.why) ==>
              || (m.phase.why.RelockFailed? && SomeDestroysNeeded(start, es))
              || (m.phase.why.WaitedSemaphoreMissing? && SomeDestroysAwaited(start, es))
  {
    hide Step, Enabled;
    var start := Start(cpu, stackLow, exitRoutine);
    StartIsGood(cpu, stackLow, exitRoutine);
    assert SemaphoresThere(start.env) && MutexesThere(start.env) && CountsOk(start.env);
    RunKeepsCounts(start, es);
    if !SomeDestroysNeeded(start, es) { RunRelocks(start, es); }
    if !SomeDestroysAwaited(start, es) { RunFindsSemaphores(start, es); }
  }
}
