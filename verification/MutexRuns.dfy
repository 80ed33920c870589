/**
 The mutex table together with the scheduler, in runs without condition waits
 (src/environment/mutex.rs:85-245, src/environment.rs:1148-1156, 1240-1247).
 */
module MutexRuns {
  import opened Prelude
  import opened Threads
  import opened Scheduler
  import opened Runs
  import opened RunInvariant
  import opened Waiters
  import opened Needs

  /** Mutex `id` counts its waiters exactly, and only a recursive mutex is held more than once. */
  ghost predicate MutexOk(e: Env, id: MutexId)
    requires id in e.mutexes
  {
    var m := e.mutexes[id];
    && id < e.mutexCount
    && m.waitingCount == Blocked(e.threads, OnMutex(id))
    && (m.locked.Some? ==> m.locked.value.owner < |e.threads| && (m.locked.value.count > 1 ==> m.kind.Recursive?))
  }

  ghost predicate MutexInv(e: Env) {
    && (forall id :: id in e.mutexes ==> MutexOk(e, id))
    && (forall t :: 0 <= t < |e.threads| ==> !e.threads[t].blockedBy.OnCondition?)
    && (forall t :: 0 <= t < |e.threads| && e.threads[t].blockedBy.OnMutex? ==>
       e.threads[t].blockedBy.mutex in e.mutexes)
  }

  /** An operation that touches neither the mutex table nor any mutex or condition wait. */
  lemma SameWaits(a: Env, b: Env)
    requires MutexInv(a) && HostMoves(a, b) && b.mutexes == a.mutexes && b.mutexCount == a.mutexCount
    requires var c := b.threads[a.current].blockedBy;
             c == a.threads[a.current].blockedBy || !(c.OnMutex? || c.OnCondition?)
    requires var c := a.threads[a.current].blockedBy; c == b.threads[a.current].blockedBy || !c.OnMutex?
    ensures MutexInv(b)
  {
    forall id | id in b.mutexes ensures MutexOk(b, id) {
      assert MutexOk(a, id);
      ByMoves(a, b, OnMutex(id));
    }
  }

  lemma OneMutexChanges(e: Env, id: MutexId, m: Mutex)
    requires MutexInv(e) && id < e.mutexCount
    requires m.waitingCount == Blocked(e.threads, OnMutex(id))
    requires m.locked.Some? ==> m.locked.value.owner < |e.threads| && (m.locked.value.count > 1 ==> m.kind.Recursive?)
    ensures MutexInv(e.(mutexes := e.mutexes[id := m]))
  {
    var n := e.(mutexes := e.mutexes[id := m]);
    forall i | i in n.mutexes ensures MutexOk(n, i) {
      if i != id { assert MutexOk(e, i); }
    }
  }

  // ---------------------------------------------------------------- the operations

  lemma InitKeepsMutexes(e: Env, kind: MutexType)
    requires MutexInv(e) && InitMutex(e, kind).Fine?
    ensures MutexInv(InitMutex(e, kind).env)
  {
    var id := e.mutexCount;
    BlockedNone(e.threads, OnMutex(id));
    forall i | i in e.mutexes ensures i < id { assert MutexOk(e, i); }
    var n := InitMutex(e, kind).env;
    forall i | i in n.mutexes ensures MutexOk(n, i) {
      if i != id { assert MutexOk(e, i); }
    }
  }

  /** `destroy_mutex` succeeds only for a mutex nobody holds or waits for. */
  lemma DestroyKeepsMutexes(e: Env, id: MutexId)
    requires MutexInv(e) && DestroyMutex(e, id).Fine?
    ensures MutexInv(DestroyMutex(e, id).env)
    ensures id !in DestroyMutex(e, id).env.mutexes ==> forall t :: 0 <= t < |e.threads| ==>
            e.threads[t].blockedBy != OnMutex(id)
    ensures id in DestroyMutex(e, id).env.mutexes <==> e.mutexes[id].locked.Some? || Blocked(e.threads, OnMutex(id)) > 0
  {
    assert MutexOk(e, id);
    BlockedNone(e.threads, OnMutex(id));
    var n := DestroyMutex(e, id).env;
    forall i | i in n.mutexes ensures MutexOk(n, i) { assert MutexOk(e, i); }
  }

  lemma UnlockKeepsMutexes(e: Env, id: MutexId)
    requires MutexInv(e)
    ensures UnlockMutex(e, id).Fine? ==> MutexInv(UnlockMutex(e, id).env)
    ensures UnlockMutex(e, id) != Panicked(CountAboveOne)
  {
    if id in e.mutexes {
      assert MutexOk(e, id);
      if UnlockMutex(e, id).Fine? {
        var n := UnlockMutex(e, id).env;
        if n != e { OneMutexChanges(e, id, n.mutexes[id]); }
      }
    }
  }

  lemma QueueKeepsMutexes(e: Env, id: MutexId)
    requires MutexInv(e) && e.current < |e.threads| && id in e.mutexes && e.threads[e.current].blockedBy.NotBlocked?
    ensures var m := e.mutexes[id];
            MutexInv(SetBlock(e.(mutexes := e.mutexes[id := m.(waitingCount := m.waitingCount + 1)]), e.current,
              OnMutex(id)))
  {
    var m := e.mutexes[id];
    var n := SetBlock(e.(mutexes := e.mutexes[id := m.(waitingCount := m.waitingCount + 1)]), e.current, OnMutex(id));
    forall i | i in n.mutexes ensures MutexOk(n, i) {
      assert MutexOk(e, i);
      SetBlockCounts(e, e.current, OnMutex(id), OnMutex(i));
    }
  }

  lemma LockKeepsMutexes(e: Env, id: MutexId)
    requires MutexInv(e) && e.current < |e.threads| && LockMutex(e, id).Fine?
    ensures MutexInv(LockMutex(e, id).env)
  {
    assert MutexOk(e, id);
    var m := e.mutexes[id];
    if m.locked.Some? && m.locked.value.owner != e.current {
      QueueKeepsMutexes(e, id);
    } else {
      var n := LockMutex(e, id).env;
      if n != e { OneMutexChanges(e, id, n.mutexes[id]); }
    }
  }

  // ---------------------------------------------------------------- the scheduler

  /** With no condition waits the scan picks the first candidate that an arm wakes, and changes nothing before it. */
  lemma {:induction false} ScanPicksOne(e: Env, initial: ThreadId, clock: Clock, k: nat, found: Found)
    requires 0 < |e.threads| && k <= |e.threads| && found.suitable.None? && found.relock.None?
    requires forall t :: 0 <= t < |e.threads| ==> !e.threads[t].blockedBy.OnCondition?
    ensures match Scan(e, initial, clock, k, found)
            case Picked(e1, t, relock) => exists j ::
                k <= j < |e.threads| && t == Candidate(e, j) && Arm(e, t, initial, clock(j)) == Wake(e1, relock)
            case ReturnTo(e1, _) => e1 == e
            case Idle(e1, _) => e1 == e
            case ScanPanic(_) => true
    decreases |e.threads| - k
  {
    if k < |e.threads| {
      var i := Candidate(e, k);
      match Arm(e, i, initial, clock(k))
      case Skip => ScanPicksOne(e, initial, clock, k + 1, found);
      case NotYet(until) => ScanPicksOne(e, initial, clock, k + 1, found.(next := Earliest(found.next, until)));
      case Wake(_, _) => assert k <= k < |e.threads| && i == Candidate(e, k);
      case _ =>
    }
  }

  /** What such a pick does to the mutex side: exactly the waiters of an unlocked mutex come with a mutex to relock. */
  predicate MutexPick(e: Env, e1: Env, t: ThreadId, relock: Option<MutexId>)
    requires t < |e.threads|
  {
    && e1.mutexes == e.mutexes && e1.mutexCount == e.mutexCount && e1.current == e.current
    && e1.threads == (if e.threads[t].blockedBy.NotBlocked? then e.threads else Unblock(e, t).threads)
    && (match e.threads[t].blockedBy
        case OnMutex(id) => relock == Some(id) && !MutexIsLocked(e, id)
        case _ => relock == None)
  }

  lemma ArmMutexPick(e: Env, i: ThreadId, initial: ThreadId, now: int)
    requires i < |e.threads| && Arm(e, i, initial, now).Wake?
    ensures MutexPick(e, Arm(e, i, initial, now).env, i, Arm(e, i, initial, now).relock)
  {
  }

  /** The woken waiter takes the free mutex with count 1, and stops being counted. */
  lemma RelockSucceeds(e: Env, id: MutexId, before: Env)
    requires MutexInv(before) && id in before.mutexes && before.mutexes[id].locked.None?
    requires e.current < |e.threads| == |before.threads| && e.mutexes == before.mutexes &&
             e.mutexCount == before.mutexCount
    requires before.threads[e.current].blockedBy == OnMutex(id) && e.threads[e.current].blockedBy.NotBlocked?
    requires forall t :: 0 <= t < |e.threads| && t != e.current ==>
             e.threads[t].blockedBy == before.threads[t].blockedBy
    ensures RelockMutex(e, id).Fine?
    ensures MutexInv(RelockMutex(e, id).env)
    ensures RelockMutex(e, id).env.mutexes[id].locked == Some(Lock(e.current, 1))
    ensures RelockMutex(e, id).env.threads == e.threads && RelockMutex(e, id).env.current == e.current
  {
    assert MutexOk(before, id);
    CountsMove(before.threads, e.threads, e.current, OnMutex(id));
    var n := RelockMutex(e, id).env;
    assert before.mutexes[id].waitingCount > 0;
    forall i | i in n.mutexes ensures MutexOk(n, i) {
      assert MutexOk(before, i);
      CountsMove(before.threads, e.threads, e.current, OnMutex(i));
    }
  }

  lemma PickKeepsMutexes(e: Env, e1: Env, e2: Env, t: ThreadId)
    requires MutexInv(e) && t < |e.threads| && MutexPick(e, e1, t, None) && |e2.threads| == |e1.threads|
    requires e2.mutexes == e.mutexes && e2.mutexCount == e.mutexCount
    requires forall u :: 0 <= u < |e2.threads| ==> e2.threads[u].blockedBy == e1.threads[u].blockedBy
    ensures MutexInv(e2)
  {
    forall i | i in e2.mutexes ensures MutexOk(e2, i) {
      assert MutexOk(e, i);
      CountsMove(e.threads, e2.threads, t, OnMutex(i));
    }
  }

  // ---------------------------------------------------------------- every step, every run

  lemma WithoutRelock(e: Env, e1: Env, t: ThreadId)
    requires MutexInv(e) && e.current < |e.threads| && t < |e.threads| && ContextOk(e, t) && ContextOk(e, e.current)
    requires MutexPick(e, e1, t, None)
    ensures t != e1.current ==> SwitchThread(e1, t).Fine?
    ensures var e2 := if t != e1.current then SwitchThread(e1, t).env else e1;
            e2.current == t && |e2.threads| == |e.threads| && MutexInv(e2)
  {
    if t != e1.current { SwitchIs(e1, t); }
    PickKeepsMutexes(e, e1, if t != e1.current then SwitchThread(e1, t).env else e1, t);
  }

  lemma WithRelock(e: Env, e1: Env, t: ThreadId, id: MutexId)
    requires MutexInv(e) && e.current < |e.threads| && t < |e.threads| && ContextOk(e, t) && ContextOk(e, e.current)
    requires MutexPick(e, e1, t, Some(id)) && e.threads[t].blockedBy == OnMutex(id)
    ensures t != e1.current ==> SwitchThread(e1, t).Fine?
    ensures var e2 := if t != e1.current then SwitchThread(e1, t).env else e1;
            && e2.current == t && |e2.threads| == |e.threads| && RelockMutex(e2, id).Fine?
            && var e3 := RelockMutex(e2, id).env;
               e3.current == t && MutexInv(e3) && id in e3.mutexes && e3.mutexes[id].locked == Some(Lock(t, 1))
  {
    if t != e1.current { SwitchIs(e1, t); }
    RelockSucceeds(if t != e1.current then SwitchThread(e1, t).env else e1, id, e);
  }

  /**
   The thread a decision resumes; if it was waiting for a mutex, the mutex was free and is now its
   own, with count 1.
   */
  ghost predicate ResumedWithMutex(e: Env, d: Decision) {
    && d.Resume? && d.env.current < |e.threads| && MutexInv(d.env)
    && (e.threads[d.env.current].blockedBy.OnMutex? ==>
          var id := e.threads[d.env.current].blockedBy.mutex;
          !MutexIsLocked(e, id) && id in d.env.mutexes && d.env.mutexes[id].locked == Some(Lock(d.env.current, 1)))
  }

  lemma PickedResumes(e: Env, initial: ThreadId, clock: Clock)
    requires MutexInv(e) && e.current < |e.threads|
    requires forall t :: 0 <= t < |e.threads| ==> ContextOk(e, t)
    requires Scan(e, initial, clock, 0, NothingFound).Picked?
    ensures ResumedWithMutex(e, Decide(e, initial, clock))
  {
    ScanPicksOne(e, initial, clock, 0, NothingFound);
    var Picked(e1, t, relock) := Scan(e, initial, clock, 0, NothingFound);
    var j :| 0 <= j < |e.threads| && t == Candidate(e, j) && Arm(e, t, initial, clock(j)) == Wake(e1, relock);
    ArmMutexPick(e, t, initial, clock(j));
    if relock.None? { WithoutRelock(e, e1, t); } else { WithRelock(e, e1, t, relock.value); }
  }

  lemma ReturnedMutexes(e: Env, initial: ThreadId, clock: Clock, flag: bool)
    requires e.current < |e.threads| && MutexInv(e) && Decide(e, initial, clock).ReturnToCaller?
    requires Scan(e, initial, clock, 0, NothingFound) == ReturnTo(e, initial)
    ensures var d := Decide(e, initial, clock).env; initial < |d.threads| && MutexInv(SetHostFlag(d, initial, flag))
  {
    DecideReturns(e, initial, clock);
    var n := SetHostFlag(Decide(e, initial, clock).env, initial, flag);
    forall i | i in n.mutexes ensures MutexOk(n, i) {
      assert MutexOk(e, i);
      ReturnCounts(e, initial, flag, OnMutex(i));
    }
  }

  lemma DecideKeepsMutexes(e: Env, initial: ThreadId, clock: Clock)
    requires e.current < |e.threads| && MutexInv(e) && NothingDangles(e)
    requires forall t :: 0 <= t < |e.threads| ==> ContextOk(e, t)
    ensures match Decide(e, initial, clock)
            case Resume(_) => ResumedWithMutex(e, Decide(e, initial, clock))
            case ReturnToCaller(_) => Scan(e, initial, clock, 0, NothingFound) == ReturnTo(e, initial)
            case Retry(e1) => e1 == e
            case Stop(why) => !MutexPanic(why)
  {
    ScanPicksOne(e, initial, clock, 0, NothingFound);
    ScanNeverPanics(e, initial, clock, 0, NothingFound);
    ScanWakes(e, initial, clock, 0, NothingFound);
    if Scan(e, initial, clock, 0, NothingFound).Picked? { PickedResumes(e, initial, clock); }
  }

  /** `n` is good and its mutex table is in order, or it stopped for another reason than the mutex table. */
  ghost predicate MutexGood(n: Machine) {
    if n.phase.Stopped? then !MutexPanic(n.phase.why) else MutexInv(n.env)
  }

  lemma ScheduleKeepsMutexes(m: Machine, clock: Clock)
    requires ThreadsOk(m) && !m.phase.Stopped? && m.frames != [] && MutexInv(m.env)
    ensures MutexGood(Scheduled(m, clock))
  {
    var initial := Top(m.frames).initial;
    forall t | 0 <= t < |m.env.threads| ensures ContextOk(m.env, t) { assert ThreadOk(m, t); }
    InvariantLeavesNothingDangling(m);
    DecideKeepsMutexes(m.env, initial, clock);
    if Decide(m.env, initial, clock).ReturnToCaller? {
      ReturnedMutexes(m.env, initial, clock, Top(m.frames).callerFlag);
    }
  }

  lemma MutexEventKeepsMutexes(m: Machine, e: Event)
    requires !m.phase.Stopped? && m.env.current < |m.env.threads| && MutexEvent(e) && !e.ConditionWait? &&
             MutexInv(m.env)
    ensures MutexGood(HostStep(m, e))
  {
    match e
    case MutexInit(kind) => if InitMutex(m.env, kind).Fine? { InitKeepsMutexes(m.env, kind); }
    case MutexLock(id) => if LockMutex(m.env, id).Fine? { LockKeepsMutexes(m.env, id); }
    case MutexUnlock(id) => UnlockKeepsMutexes(m.env, id);
    case MutexDestroy(id) => if DestroyMutex(m.env, id).Fine? { DestroyKeepsMutexes(m.env, id); }
  }

  lemma NewThreadKeepsMutexes(e: Env, start: u32, userData: u32, size: u32, base: u32)
    requires e.current < |e.threads| && e.threads[e.current].context.None? && MutexInv(e)
    ensures match NewThread(e, start, userData, size, base)
            case Fine(e1, _) => MutexInv(e1)
            case Panicked(why) => !MutexPanic(why)
  {
    if base + size < TWO32 && (base + size) % 4 == 0 {
      NewThreadIs(e, start, userData, size, base);
      CreateMoves(e, start, userData, size, base);
      SameWaits(e, NewThread(e, start, userData, size, base).env);
    }
  }

  lemma CreateKeepsMutexes(m: Machine, e: Event)
    requires !m.phase.Stopped? && m.env.current < |m.env.threads| && e.Create?
    requires m.env.threads[m.env.current].context.None? && MutexInv(m.env)
    ensures MutexGood(HostStep(m, e))
  {
    NewThreadKeepsMutexes(m.env, e.start, e.userData, e.size, e.base);
  }

  lemma SemaphoreEventKeepsMutexes(m: Machine, e: Event)
    requires !m.phase.Stopped? && m.env.current < |m.env.threads| && SemaphoreEvent(e) && MutexInv(m.env)
    ensures MutexGood(HostStep(m, e))
  {
    SemaphoreEventMoves(m, e);
    SameWaits(m.env, HostStep(m, e).env);
  }

  lemma StackEventKeepsMutexes(m: Machine, e: Event)
    requires !m.phase.Stopped? && m.env.current < |m.env.threads| && StackEvent(e) && MutexInv(m.env)
    ensures MutexGood(HostStep(m, e))
  {
    StackEventMoves(m, e);
    SameWaits(m.env, HostStep(m, e).env);
  }

  lemma RemainingEventKeepsMutexes(m: Machine, e: Event)
    requires !m.phase.Stopped? && m.env.current < |m.env.threads| && HostEvent(e) && !e.Create? && MutexInv(m.env)
    requires !MutexEvent(e) && !SemaphoreEvent(e) && !StackEvent(e)
    ensures MutexGood(HostStep(m, e))
  {
    OtherHostEventMoves(m, e);
    SameWaits(m.env, HostStep(m, e).env);
  }

  lemma GuestEventKeepsMutexes(m: Machine, e: Event)
    requires !m.phase.Stopped? && m.env.current < |m.env.threads| && m.env.threads[m.env.current].blockedBy.NotBlocked?
    requires !HostEvent(e) && !e.Schedule? && MutexInv(m.env)
    ensures MutexGood(Step(m, e))
  {
    GuestStepMoves(m, e);
    SameWaits(m.env, Step(m, e).env);
  }

  lemma StepKeepsMutexes(m: Machine, e: Event)
    requires Inv(m) && Enabled(m, e) && !e.ConditionWait? && MutexInv(m.env)
    ensures MutexGood(Step(m, e))
  {
    if e.Schedule? {
      ScheduleKeepsMutexes(m, e.clock);
    } else if !HostEvent(e) {
      GuestEventKeepsMutexes(m, e);
    } else if e.Create? {
      assert ThreadOk(m, m.env.current);
      CreateKeepsMutexes(m, e);
    } else if MutexEvent(e) {
      MutexEventKeepsMutexes(m, e);
    } else if SemaphoreEvent(e) {
      SemaphoreEventKeepsMutexes(m, e);
    } else if StackEvent(e) {
      StackEventKeepsMutexes(m, e);
    } else {
      RemainingEventKeepsMutexes(m, e);
    }
  }

  predicate NoConditionWaits(es: seq<Event>) {
    forall i :: 0 <= i < |es| ==> !es[i].ConditionWait?
  }

  lemma {:induction false} RunKeepsMutexes(m: Machine, es: seq<Event>)
    requires Inv(m) && MutexInv(m.env) && Legal(m, es) && NoConditionWaits(es)
    ensures Good(Run(m, es)) && MutexGood(Run(m, es))
    decreases |es|
  {
    if es != [] {
      StepKeeps(m, es[0]);
      StepKeepsMutexes(m, es[0]);
      if !Step(m, es[0]).phase.Stopped? { RunKeepsMutexes(Step(m, es[0]), es[1..]); }
    }
  }

  /**
   In every run without condition waits no assertion or unwrap of the scheduler's own fails at all,
   unless a semaphore is destroyed under a waiter;
     `waiting_count` is the number of waiters of each mutex, and counts above one are recursive.
   */
  lemma MutexesAreCounted(cpu: Cpu, stackLow: u32, exitRoutine: u32, es: seq<Event>)
    requires Legal(Start(cpu, stackLow, exitRoutine), es) && NoConditionWaits(es)
    ensures var m := Run(Start(cpu, stackLow, exitRoutine), es);
            if m.phase.Stopped? then
              || !Internal(m.phase.why)
              || (m.phase.why.WaitedSemaphoreMissing? && SomeDestroysAwaited(Start(cpu, stackLow, exitRoutine), es))
            else Inv(m) && MutexInv(m.env)
  {
    DestructionOnly(cpu, stackLow, exitRoutine, es);
    StartIsGood(cpu, stackLow, exitRoutine);
    RunKeepsMutexes(Start(cpu, stackLow, exitRoutine), es);
  }
}
