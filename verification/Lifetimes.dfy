/** Thread lifetimes and joins (src/environment.rs:685-697, 847-858, 970-989, 1202-1221). */
module Lifetimes {
  import opened Prelude
  import opened Threads
  import opened Scheduler
  import opened Runs
  import opened RunInvariant
  import opened Waiters

  /** Finished in `m`, and exactly as finished in `n`. */
  predicate StaysFinished(m: Machine, n: Machine, t: ThreadId) {
    t < |m.env.threads| && t < |n.env.threads| && !m.env.threads[t].active && !n.env.threads[t].active &&
    n.env.threads[t].returnValue == m.env.threads[t].returnValue && n.env.threads[t].stack.None?
  }

  /** The exit SVC records r0, frees the stack the thread was born with, and nothing else. */
  lemma ExitRecords(m: Machine)
    requires Inv(m) && m.phase.Guest? && !Exited(m).phase.Stopped?
    ensures var n := Exited(m); var c := m.env.current;
            && c != 0 && m.born[c] in m.env.heap
            && n.env.threads[c].returnValue == Some(m.env.cpu.regs[0]) && !n.env.threads[c].active
            && n.env.heap == m.env.heap - {m.born[c]}
            && n.freed == m.freed + [(c, m.born[c])]
            && (forall k :: 0 <= k < |m.freed| ==> m.freed[k].0 != c)
  {
    assert ThreadOk(m, m.env.current);
  }

  lemma DecideKeepsLives(e: Env, initial: ThreadId, clock: Clock, t: ThreadId)
    requires e.current < |e.threads| && t < |e.threads| && !Decide(e, initial, clock).Stop?
    ensures var d := Decide(e, initial, clock).env;
            |d.threads| == |e.threads| && d.threads[t].active == e.threads[t].active &&
            d.threads[t].returnValue == e.threads[t].returnValue && d.threads[t].stack == e.threads[t].stack
  {
    ScanWakes(e, initial, clock, 0, NothingFound);
    var r := Scan(e, initial, clock, 0, NothingFound);
    assert SameOrWoken(e.threads[t], r.env.threads[t]);
    if r.Picked? {
      PickKeepsLives(r.env, r.thread, r.relock, t);
    } else if r.ReturnTo? {
      PickKeepsLives(Unblock(r.env, r.thread), r.thread, None, t);
    }
  }

  lemma PickKeepsLives(e1: Env, i: ThreadId, relock: Option<MutexId>, t: ThreadId)
    requires e1.current < |e1.threads| && i < |e1.threads| && t < |e1.threads|
    requires i != e1.current ==> SwitchThread(e1, i).Fine?
    ensures var e2 := if i != e1.current then SwitchThread(e1, i).env else e1;
            && e2.current == i && |e2.threads| == |e1.threads|
            && e2.threads[t] == e1.threads[t].(context := e2.threads[t].context)
            && (relock.Some? && RelockMutex(e2, relock.value).Fine? ==>
                  var e3 := RelockMutex(e2, relock.value).env;
                  |e3.threads| == |e2.threads| && e3.threads[t] == e2.threads[t].(blockedBy := e3.threads[t].blockedBy))
  {
    var e2 := if i != e1.current then SwitchThread(e1, i).env else e1;
    if relock.Some? && RelockMutex(e2, relock.value).Fine? { RelockIs(e2, relock.value); }
  }

  lemma FinishedStaysFinished(m: Machine, e: Event, t: ThreadId)
    requires Inv(m) && Enabled(m, e) && !Step(m, e).phase.Stopped? && t < |m.env.threads| && !m.env.threads[t].active
    ensures StaysFinished(m, Step(m, e), t)
  {
    assert ThreadOk(m, t) && ThreadOk(m, m.env.current);
    if e.Schedule? {
      DecideKeepsLives(m.env, Top(m.frames).initial, e.clock, t);
    } else if HostEvent(e) {
      HostEventMoves(m, e);
    } else {
      GuestStepMoves(m, e);
    }
  }

  /** A finished thread never changes again, and in no later state is it the one that executes. */
  lemma {:induction false} FinishedForever(m: Machine, es: seq<Event>, t: ThreadId)
    requires Inv(m) && Legal(m, es) && !Run(m, es).phase.Stopped? && t < |m.env.threads| && !m.env.threads[t].active
    ensures t != 0 && StaysFinished(m, Run(m, es), t)
    ensures var n := Run(m, es); (n.phase.Guest? || n.phase.Host?) ==> n.env.current != t
    decreases |es|
  {
    assert ThreadOk(m, t);
    if es != [] {
      StepKeeps(m, es[0]);
      FinishedStaysFinished(m, es[0], t);
      FinishedForever(Step(m, es[0]), es[1..], t);
    }
  }

  /** In every reachable state each thread's stack was freed once if it has finished, and never if it has not. */
  lemma StackFreedExactlyOnce(m: Machine, t: ThreadId)
    requires Inv(m) && 0 < t < |m.env.threads|
    ensures m.env.threads[t].active ==> m.born[t] in m.env.heap && forall k :: 0 <= k < |m.freed| ==> m.freed[k].0 != t
    ensures !m.env.threads[t].active ==>
              exists k :: 0 <= k < |m.freed| && m.freed[k] == (t, m.born[t]) &&
                          forall j :: 0 <= j < |m.freed| && j != k ==> m.freed[j].0 != t
  {
    if m.env.threads[t].active {
      forall k | 0 <= k < |m.freed| ensures m.freed[k].0 != t {
        assert m.freed[k] in m.freed && m.freed[k] == (m.freed[k].0, m.born[m.freed[k].0]);
      }
    } else {
      var k :| 0 <= k < |m.freed| && m.freed[k] == (t, m.born[t]);
      forall j | 0 <= j < |m.freed| && j != k ensures m.freed[j].0 != t { }
    }
  }

  // ---------------------------------------------------------------- joins

  /** Every joiner that `b` has released and `a` had not: its joinee had finished, and its result was written. */
  ghost predicate JoinsHonoured(a: Env, b: Env) {
    |b.threads| == |a.threads| &&
    forall t ::
      0 <= t < |a.threads| && a.threads[t].blockedBy.Joining? && b.threads[t].blockedBy != a.threads[t].blockedBy ==>
      Honoured(a, b, a.threads[t].blockedBy.joinee, a.threads[t].blockedBy.ptr)
  }

  predicate Honoured(a: Env, b: Env, joinee: ThreadId, ptr: u32) {
    joinee < |a.threads| && !a.threads[joinee].active &&
    (ptr != 0 ==>
        a.threads[joinee].returnValue.Some? && ptr in b.mem && b.mem[ptr] == a.threads[joinee].returnValue.value)
  }

  lemma ArmHonours(e: Env, i: ThreadId, initial: ThreadId, now: int)
    requires i < |e.threads|
    ensures Arm(e, i, initial, now).Wake? ==> JoinsHonoured(e, Arm(e, i, initial, now).env)
    ensures Arm(e, i, initial, now).WakeAndGoOn? ==>
              var e1 := Arm(e, i, initial, now).env;
              |e1.threads| == |e.threads| && e.threads[i].blockedBy.OnCondition? &&
              forall t :: 0 <= t < |e.threads| ==>
                e1.threads[t] == (if t == i then e.threads[t].(blockedBy := NotBlocked) else e.threads[t])
  {
  }

  lemma {:induction false} ScanHonours(e: Env, initial: ThreadId, clock: Clock, k: nat, found: Found)
    requires 0 < |e.threads| && k <= |e.threads|
    ensures match Scan(e, initial, clock, k, found)
            case Picked(e1, _, _) => JoinsHonoured(e, e1)
            case ReturnTo(e1, _) => JoinsHonoured(e, e1)
            case Idle(e1, _) => JoinsHonoured(e, e1)
            case ScanPanic(_) => true
    decreases |e.threads| - k
  {
    if k < |e.threads| {
      var i := Candidate(e, k);
      ArmHonours(e, i, initial, clock(k));
      match Arm(e, i, initial, clock(k))
      case Skip => ScanHonours(e, initial, clock, k + 1, found);
      case NotYet(until) => ScanHonours(e, initial, clock, k + 1, found.(next := Earliest(found.next, until)));
      case WakeAndGoOn(e1, id) =>
        var found1 := found.(suitable := Some(i), relock := Some(id));
        ScanHonours(e1, initial, clock, k + 1, found1);
        var r := Scan(e1, initial, clock, k + 1, found1);
        if !r.ScanPanic? { HonoursAfterCondition(e, e1, r.env, i); }
      case _ =>
    }
  }

  lemma HonoursAfterCondition(e: Env, e1: Env, e2: Env, i: ThreadId)
    requires i < |e.threads| && |e1.threads| == |e.threads| && e.threads[i].blockedBy.OnCondition? &&
             JoinsHonoured(e1, e2)
    requires forall t :: 0 <= t < |e.threads| ==>
             e1.threads[t] == (if t == i then e.threads[t].(blockedBy := NotBlocked) else e.threads[t])
    ensures JoinsHonoured(e, e2)
  {
    forall t | 0 <= t < |e.threads| && e.threads[t].blockedBy.Joining? &&
      e2.threads[t].blockedBy != e.threads[t].blockedBy
      ensures Honoured(e, e2, e.threads[t].blockedBy.joinee, e.threads[t].blockedBy.ptr)
    {
      assert Honoured(e1, e2, e1.threads[t].blockedBy.joinee, e1.threads[t].blockedBy.ptr);
    }
  }

  /** A joiner resumes only after its joinee has ended, with that thread's exit r0 at the address it gave. */
  lemma JoinerResumesAfterJoinee(e: Env, initial: ThreadId, clock: Clock, t: ThreadId)
    requires e.current < |e.threads| && t < |e.threads| && e.threads[t].blockedBy.Joining?
    requires Decide(e, initial, clock).Resume? && Decide(e, initial, clock).env.current == t
    ensures Honoured(e, Decide(e, initial, clock).env, e.threads[t].blockedBy.joinee, e.threads[t].blockedBy.ptr)
  {
    ScanWakes(e, initial, clock, 0, NothingFound);
    ScanHonours(e, initial, clock, 0, NothingFound);
    var r := Scan(e, initial, clock, 0, NothingFound);
    PickKeepsMemory(r.env, r.thread, r.relock);
  }

  lemma PickKeepsMemory(e1: Env, i: ThreadId, relock: Option<MutexId>)
    requires e1.current < |e1.threads| && i < |e1.threads|
    requires i != e1.current ==> SwitchThread(e1, i).Fine?
    ensures var e2 := if i != e1.current then SwitchThread(e1, i).env else e1;
            && e2.current == i && |e2.threads| == |e1.threads| && e2.mem == e1.mem
            && (relock.Some? && RelockMutex(e2, relock.value).Fine? ==>
                  RelockMutex(e2, relock.value).env.mem == e1.mem && RelockMutex(e2, relock.value).env.current == i)
  {
    var e2 := if i != e1.current then SwitchThread(e1, i).env else e1;
    if relock.Some? && RelockMutex(e2, relock.value).Fine? { RelockIs(e2, relock.value); }
  }

  // ---------------------------------------------------------------- joins over runs

  /** Thread `t` is blocked joining with `j`, whose result it wants at `ptr`. */
  predicate Waits(m: Machine, t: ThreadId, j: ThreadId, ptr: u32) {
    t < |m.env.threads| && j < |m.env.threads| && m.env.threads[t].blockedBy == Joining(j, ptr)
  }

  /** What a decision does to a joiner: it stays blocked, or its joinee has finished and its result was written. */
  lemma {:induction false} DecideHonours(e: Env, initial: ThreadId, clock: Clock, t: ThreadId, j: ThreadId, ptr: u32)
    requires e.current < |e.threads| && t < |e.threads| && e.threads[t].blockedBy == Joining(j, ptr) &&
             !Decide(e, initial, clock).Stop?
    ensures var d := Decide(e, initial, clock).env;
            |d.threads| == |e.threads| && (d.threads[t].blockedBy == Joining(j, ptr) || Honoured(e, d, j, ptr))
  {
    hide Scan, Honoured, SwitchThread, RelockMutex;
    ScanWakes(e, initial, clock, 0, NothingFound);
    ScanHonours(e, initial, clock, 0, NothingFound);
    var r := Scan(e, initial, clock, 0, NothingFound);
    assert SameOrWoken(e.threads[t], r.env.threads[t]);
    if r.Picked? {
      PickKeepsMemory(r.env, r.thread, r.relock);
      PickKeepsWait(r.env, r.thread, r.relock, t);
      HonouredByMemory(e, r.env, Decide(e, initial, clock).env, j, ptr);
    } else if r.ReturnTo? {
      ReturnKeepsWait(r.env, r.thread, t);
      HonouredByMemory(e, r.env, Decide(e, initial, clock).env, j, ptr);
    }
  }

  lemma HonouredByMemory(e: Env, a: Env, b: Env, j: ThreadId, ptr: u32)
    requires b.mem == a.mem
    ensures Honoured(e, a, j, ptr) == Honoured(e, b, j, ptr)
  {
  }

  lemma ReturnKeepsWait(e1: Env, i: ThreadId, t: ThreadId)
    requires e1.current < |e1.threads| && i < |e1.threads| && t < |e1.threads| &&
             e1.threads[i].blockedBy.DeferredReturn?
    requires SwitchThread(Unblock(e1, i), i).Fine?
    ensures var e2 := SwitchThread(Unblock(e1, i), i).env;
            |e2.threads| == |e1.threads| && e2.mem == e1.mem &&
              (t != i ==> e2.threads[t].blockedBy == e1.threads[t].blockedBy)
  {
  }

  lemma {:induction false} DecisionHonours(m: Machine, clock: Clock, t: ThreadId, j: ThreadId, ptr: u32)
    requires Inv(m) && m.phase.Deciding? && Waits(m, t, j, ptr) && !Step(m, Schedule(clock)).phase.Stopped?
    ensures var n := Step(m, Schedule(clock)); Waits(n, t, j, ptr) || Honoured(m.env, n.env, j, ptr)
  {
    hide Decide, Honoured;
    assert ThreadOk(m, t);
    var initial := Top(m.frames).initial;
    DecideHonours(m.env, initial, clock, t, j, ptr);
    HonouredByMemory(m.env, Decide(m.env, initial, clock).env, Step(m, Schedule(clock)).env, j, ptr);
  }

  /** Switching and relocking leave a joiner blocked. */
  lemma PickKeepsWait(e1: Env, i: ThreadId, relock: Option<MutexId>, t: ThreadId)
    requires e1.current < |e1.threads| && i < |e1.threads| && t < |e1.threads|
    requires i != e1.current ==> SwitchThread(e1, i).Fine?
    ensures var e2 := if i != e1.current then SwitchThread(e1, i).env else e1;
            && |e2.threads| == |e1.threads| && e2.threads[t].blockedBy == e1.threads[t].blockedBy && e2.current == i
            && (relock.Some? && RelockMutex(e2, relock.value).Fine? ==>
                  var e3 := RelockMutex(e2, relock.value).env;
                  |e3.threads| == |e1.threads| &&
                    (e1.threads[t].blockedBy.Joining? ==> e3.threads[t].blockedBy == e1.threads[t].blockedBy))
  {
    var e2 := if i != e1.current then SwitchThread(e1, i).env else e1;
    if relock.Some? && RelockMutex(e2, relock.value).Fine? { RelockIs(e2, relock.value); }
  }

  /** Host functions and guest code end no join. */
  lemma StepKeepsJoin(m: Machine, e: Event, t: ThreadId, j: ThreadId, ptr: u32)
    requires Inv(m) && Enabled(m, e) && !e.Schedule? && !Step(m, e).phase.Stopped? && Waits(m, t, j, ptr)
    ensures Waits(Step(m, e), t, j, ptr)
  {
    assert ThreadOk(m, t) && ThreadOk(m, m.env.current);
    if HostEvent(e) {
      HostEventMoves(m, e);
      if e.Create? {
        CreateMoves(m.env, e.start, e.userData, e.size, e.base);
      } else if MutexEvent(e) {
        MutexEventMoves(m, e);
      } else if SemaphoreEvent(e) {
        if t == m.env.current { SemaphoreEventKeepsJoin(m, e); }
      } else if StackEvent(e) {
        StackEventMoves(m, e);
      } else {
        OtherHostEventMoves(m, e);
      }
    } else {
      GuestStepMoves(m, e);
    }
  }

  lemma {:induction false} SemaphoreEventKeepsJoin(m: Machine, e: Event)
    requires m.env.current < |m.env.threads| && SemaphoreEvent(e) && m.env.threads[m.env.current].blockedBy.Joining?
    ensures HostStep(m, e).env.threads == m.env.threads
  {
  }

  lemma {:induction false} MutexEventKeepsLives(m: Machine, e: Event)
    requires m.env.current < |m.env.threads| && MutexEvent(e) && !HostStep(m, e).phase.Stopped?
    ensures var c := m.env.current; var n := HostStep(m, e).env;
            c < |n.threads| && n.threads[c].active == m.env.threads[c].active
  {
    hide LockMutex, CondWait, NewThread;
    if e.MutexLock? {
      if LockMutex(m.env, e.id).Fine? { LockIs(m.env, e.id); }
    } else if e.ConditionWait? {
      if CondWait(m.env, e.cond, e.id).Fine? { CondWaitIs(m.env, e.cond, e.id); }
    }
  }

  lemma {:induction false} StackEventKeepsLives(m: Machine, e: Event)
    requires m.env.current < |m.env.threads| && StackEvent(e)
    ensures var c := m.env.current; var n := HostStep(m, e).env;
            c < |n.threads| && n.threads[c].active == m.env.threads[c].active
  {
    hide LockMutex, UnlockMutex, InitMutex, DestroyMutex, SemInit, SemIncrement, SemDecrement, CondWait, NewThread,
      BlockCurrent;
  }

  lemma {:induction false} WaitEventKeepsLives(m: Machine, e: Event)
    requires m.env.current < |m.env.threads| && IsWaitEvent(e)
    ensures var c := m.env.current; var n := HostStep(m, e).env;
            c < |n.threads| && n.threads[c].active == m.env.threads[c].active
  {
  }

  lemma {:induction false} OtherEventKeepsLives(m: Machine, e: Event)
    requires m.env.current < |m.env.threads| && HostEvent(e) && !e.Create? && !MutexEvent(e) && !StackEvent(e)
    ensures var c := m.env.current; var n := HostStep(m, e).env;
            c < |n.threads| && n.threads[c].active == m.env.threads[c].active
  {
    hide LockMutex, UnlockMutex, InitMutex, DestroyMutex, CondWait, NewThread, RunCalled, HostReturned, SemInit,
      SemIncrement, SemDecrement, BlockCurrent;
    if IsWaitEvent(e) { WaitEventKeepsLives(m, e); }
  }

  lemma {:induction false} HostEventKeepsLives(m: Machine, e: Event)
    requires Inv(m) && m.phase.Host? && HostEvent(e) && !HostStep(m, e).phase.Stopped?
    ensures var c := m.env.current; var n := HostStep(m, e).env;
            c < |n.threads| && n.threads[c].active == m.env.threads[c].active
  {
    assert ThreadOk(m, m.env.current);
    if e.Create? {
      CreateMoves(m.env, e.start, e.userData, e.size, e.base);
    } else if MutexEvent(e) {
      MutexEventKeepsLives(m, e);
    } else if StackEvent(e) {
      StackEventKeepsLives(m, e);
    } else {
      OtherEventKeepsLives(m, e);
    }
  }

  /** A thread finishes by its own exit, and by nothing else. */
  lemma {:induction false} FinishesByExit(m: Machine, e: Event, j: ThreadId)
    requires Inv(m) && Enabled(m, e) && !Step(m, e).phase.Stopped? && j < |m.env.threads| && m.env.threads[j].active
    ensures var n := Step(m, e);
            j < |n.env.threads| &&
            (!n.env.threads[j].active ==>
              e.SvcThreadExit? && m.env.current == j && n.env.threads[j].returnValue == Some(m.env.cpu.regs[0]))
  {
    hide HostStep, Decide;
    assert ThreadOk(m, m.env.current);
    if e.Schedule? {
      DecideKeepsLives(m.env, Top(m.frames).initial, e.clock, j);
    } else if HostEvent(e) {
      HostEventMoves(m, e);
      HostEventKeepsLives(m, e);
    } else {
      GuestStepMoves(m, e);
    }
  }

  /** `t` waits in each of the first states of the run, up to the k-th. */
  ghost predicate WaitsUntil(m: Machine, es: seq<Event>, t: ThreadId, j: ThreadId, ptr: u32, k: nat)
    requires k <= |es|
  {
    forall i :: 0 <= i <= k ==> Waits(Run(m, es[..i]), t, j, ptr)
  }

  /** The decision `es[release]` ends the wait; `value` is then at the address asked for. */
  ghost predicate Released(m: Machine, es: seq<Event>, t: ThreadId, j: ThreadId, ptr: u32, release: nat, value: u32) {
    && release < |es| && es[release].Schedule? && WaitsUntil(m, es, t, j, ptr, release)
    && var n := Run(m, es[..release + 1]);
       !Waits(n, t, j, ptr) && (ptr != 0 ==> ptr in n.env.mem && n.env.mem[ptr] == value)
  }

  /** `es[exit]` is the exit of `j`; only later does a decision end the wait, with the r0 of that exit. */
  ghost predicate JoinEnds(m: Machine, es: seq<Event>, t: ThreadId, j: ThreadId, ptr: u32, exit: nat, release: nat) {
    && exit < release < |es| && es[exit].SvcThreadExit? && Run(m, es[..exit]).env.current == j
    && Released(m, es, t, j, ptr, release, Run(m, es[..exit]).env.cpu.regs[0])
  }

  lemma {:induction false} RunFirst(m: Machine, es: seq<Event>, k: nat)
    requires k < |es| && m.env.current < |m.env.threads|
    ensures Run(m, es[..k + 1]) == Run(Step(m, es[0]), es[1..][..k])
    ensures Run(m, es[..0]) == m
  {
    hide Step;
    assert es[..k + 1][0] == es[0] && es[..k + 1][1..] == es[1..][..k];
  }

  lemma {:induction false} WaitsBefore(m: Machine, es: seq<Event>, t: ThreadId, j: ThreadId, ptr: u32, k: nat)
    requires es != [] && m.env.current < |m.env.threads| && Waits(m, t, j, ptr) && k < |es|
    requires WaitsUntil(Step(m, es[0]), es[1..], t, j, ptr, k)
    ensures WaitsUntil(m, es, t, j, ptr, k + 1)
  {
    hide Step, Waits;
    forall i | 0 <= i <= k + 1 ensures Waits(Run(m, es[..i]), t, j, ptr) {
      if i > 0 { RunFirst(m, es, i - 1); } else { RunFirst(m, es, 0); }
    }
  }

  lemma {:induction false} ReleasedBefore(m: Machine, es: seq<Event>, t: ThreadId, j: ThreadId, ptr: u32, release: nat,
          value: u32)
    requires es != [] && m.env.current < |m.env.threads| && Waits(m, t, j, ptr)
    requires Released(Step(m, es[0]), es[1..], t, j, ptr, release, value)
    ensures Released(m, es, t, j, ptr, release + 1, value)
  {
    hide Step, Waits, WaitsUntil;
    WaitsBefore(m, es, t, j, ptr, release);
    RunFirst(m, es, release + 1);
  }

  /** Once the joinee has finished, the wait ends, if it does, with its return value delivered. */
  lemma {:induction false} FinishedJoin(m: Machine, es: seq<Event>, t: ThreadId, j: ThreadId, ptr: u32, value: u32)
    requires Inv(m) && Legal(m, es) && !Run(m, es).phase.Stopped? && Waits(m, t, j, ptr)
    requires !m.env.threads[j].active && m.env.threads[j].returnValue == Some(value)
    ensures WaitsUntil(m, es, t, j, ptr, |es|) || exists release: nat :: Released(m, es, t, j, ptr, release, value)
    decreases |es|
  {
    hide Step, WaitsUntil, Released;
    if es == [] {
      NothingHappens(m, t, j, ptr);
    } else {
      var e, n := es[0], Step(m, es[0]);
      StepKeeps(m, e);
      FinishedStaysFinished(m, e, j);
      if e.Schedule? {
        DecisionHonours(m, e.clock, t, j, ptr);
      } else {
        StepKeepsJoin(m, e, t, j, ptr);
      }
      if Waits(n, t, j, ptr) {
        FinishedJoin(n, es[1..], t, j, ptr, value);
        if WaitsUntil(n, es[1..], t, j, ptr, |es[1..]|) {
          WaitsBefore(m, es, t, j, ptr, |es| - 1);
        } else {
          var release: nat :| Released(n, es[1..], t, j, ptr, release, value);
          ReleasedBefore(m, es, t, j, ptr, release, value);
        }
      } else {
        ReleasedNow(m, es, t, j, ptr, value);
      }
    }
  }

  lemma NothingHappens(m: Machine, t: ThreadId, j: ThreadId, ptr: u32)
    requires Waits(m, t, j, ptr)
    ensures WaitsUntil(m, [], t, j, ptr, 0)
  {
  }

  lemma {:induction false} ReleasedNow(m: Machine, es: seq<Event>, t: ThreadId, j: ThreadId, ptr: u32, value: u32)
    requires m.env.current < |m.env.threads| && es != [] && es[0].Schedule? && Waits(m, t, j, ptr) &&
             !Waits(Step(m, es[0]), t, j, ptr)
    requires m.env.threads[j].returnValue == Some(value) && Honoured(m.env, Step(m, es[0]).env, j, ptr)
    ensures Released(m, es, t, j, ptr, 0, value)
  {
    hide Step;
    RunFirst(m, es, 0);
    assert Run(Step(m, es[0]), []) == Step(m, es[0]);
  }

  /**
   A joiner stays blocked until the thread it joins with exits; and when a later decision releases
   it, that thread's r0 at its exit lies at the address the joiner gave.
   */
  lemma {:induction false} JoinEndsWithExit(m: Machine, es: seq<Event>, t: ThreadId, j: ThreadId, ptr: u32)
    requires Inv(m) && Legal(m, es) && !Run(m, es).phase.Stopped? && Waits(m, t, j, ptr) && m.env.threads[j].active
    ensures WaitsUntil(m, es, t, j, ptr, |es|) || exists exit: nat, release: nat ::
            JoinEnds(m, es, t, j, ptr, exit, release)
    decreases |es|
  {
    hide Step, WaitsUntil, Released, JoinEnds;
    if es == [] {
      NothingHappens(m, t, j, ptr);
    } else {
      var e, n := es[0], Step(m, es[0]);
      StepKeeps(m, e);
      FinishesByExit(m, e, j);
      if e.Schedule? {
        DecisionHonours(m, e.clock, t, j, ptr);
      } else {
        StepKeepsJoin(m, e, t, j, ptr);
      }
      if n.env.threads[j].active {
        JoinEndsWithExit(n, es[1..], t, j, ptr);
        if WaitsUntil(n, es[1..], t, j, ptr, |es[1..]|) {
          WaitsBefore(m, es, t, j, ptr, |es| - 1);
        } else {
          var exit: nat, release: nat :| JoinEnds(n, es[1..], t, j, ptr, exit, release);
          JoinEndsLater(m, es, t, j, ptr, exit, release);
        }
      } else {
        FinishedJoin(n, es[1..], t, j, ptr, m.env.cpu.regs[0]);
        if WaitsUntil(n, es[1..], t, j, ptr, |es[1..]|) {
          WaitsBefore(m, es, t, j, ptr, |es| - 1);
        } else {
          var release: nat :| Released(n, es[1..], t, j, ptr, release, m.env.cpu.regs[0]);
          ExitNow(m, es, t, j, ptr, release);
        }
      }
    }
  }

  lemma {:induction false} JoinEndsLater(m: Machine, es: seq<Event>, t: ThreadId, j: ThreadId, ptr: u32, exit: nat,
          release: nat)
    requires es != [] && m.env.current < |m.env.threads| && Waits(m, t, j, ptr) &&
             JoinEnds(Step(m, es[0]), es[1..], t, j, ptr, exit, release)
    ensures JoinEnds(m, es, t, j, ptr, exit + 1, release + 1)
  {
    hide Step, Released;
    RunFirst(m, es, exit);
    ReleasedBefore(m, es, t, j, ptr, release, Run(m, es[..exit + 1]).env.cpu.regs[0]);
  }

  lemma {:induction false} ExitNow(m: Machine, es: seq<Event>, t: ThreadId, j: ThreadId, ptr: u32, release: nat)
    requires es != [] && es[0].SvcThreadExit? && m.env.current == j < |m.env.threads| && Waits(m, t, j, ptr)
    requires Released(Step(m, es[0]), es[1..], t, j, ptr, release, m.env.cpu.regs[0])
    ensures JoinEnds(m, es, t, j, ptr, 0, release + 1)
  {
    hide Step;
    RunFirst(m, es, 0);
    ReleasedBefore(m, es, t, j, ptr, release, m.env.cpu.regs[0]);
  }
}
