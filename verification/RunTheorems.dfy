/** What the invariant says about nested runs, registers and thread lifetimes, over every run. */
module RunTheorems {
  import opened Prelude
  import opened Threads
  import opened Scheduler
  import opened Runs
  import opened RunInvariant
  import opened Waiters
  import opened Needs

  // ---------------------------------------------------------------- nested runs

  /**
   No run ever fails an assertion or unwrap of `run_call`, `run_inner`, `switch_thread`, thread exit,
   unlocking or relocking, or one on what a blocked thread waits for, unless the guest destroyed a
   mutex that a blocked thread will have to take, or a semaphore that one is blocked on.
   */
  lemma NestedRunsNeverPanic(cpu: Cpu, stackLow: u32, exitRoutine: u32, es: seq<Event>)
    requires Legal(Start(cpu, stackLow, exitRoutine), es)
    ensures var m := Run(Start(cpu, stackLow, exitRoutine), es);
            if m.phase.Stopped? then
              || !Internal(m.phase.why)
              || (m.phase.why.RelockFailed? && SomeDestroysNeeded(Start(cpu, stackLow, exitRoutine), es))
              || (m.phase.why.WaitedSemaphoreMissing? && SomeDestroysAwaited(Start(cpu, stackLow, exitRoutine), es))
            else Inv(m)
  {
    DestructionOnly(cpu, stackLow, exitRoutine, es);
    StartIsGood(cpu, stackLow, exitRoutine);
    RunKeeps(Start(cpu, stackLow, exitRoutine), es);
  }

  lemma ScheduleReturns(m: Machine, clock: Clock)
    requires Inv(m) && m.phase.Deciding?
    ensures Scheduled(m, clock).frames == m.frames || ReturnedProperly(m, Scheduled(m, clock))
  {
    if Scan(m.env, Top(m.frames).initial, clock, 0, NothingFound).ReturnTo? {
      ReturnToKeeps(m, clock);
    }
  }

  /** `n` may have one more frame than `m`, or another mark on the top one. */
  predicate FramesGrow(m: Machine, n: Machine) {
    |m.frames| <= |n.frames| && (m.frames != [] ==> Pop(m.frames) == n.frames[..|m.frames| - 1])
  }

  lemma HostFrames(m: Machine, e: Event)
    requires m.env.current < |m.env.threads| && HostEvent(e)
    ensures FramesGrow(m, HostStep(m, e))
  {
  }

  /** A frame disappears only by a proper return, and no step touches the frames below the top one. */
  lemma FramesReturnInOrder(m: Machine, e: Event)
    requires Inv(m) && Enabled(m, e)
    ensures FramesGrow(m, Step(m, e)) || ReturnedProperly(m, Step(m, e))
  {
    if HostEvent(e) {
      HostFrames(m, e);
    } else if e.Schedule? {
      ScheduleReturns(m, e.clock);
    } else if e.SvcReturnToHost? {
      SvcReturnKeeps(m);
    }
  }

  /** From `m` to `n`, thread `t` stays deferred, or its own frame, on top, has returned. */
  ghost predicate StillDeferredOrReturned(m: Machine, n: Machine, t: ThreadId) {
    t < |n.env.threads| && m.frames != [] &&
    (n.env.threads[t].blockedBy.DeferredReturn? || (Top(m.frames).initial == t && ReturnedProperly(m, n)))
  }

  /** A deferred thread runs nothing, and is released only by the return of its own frame. */
  lemma DeferredUntilOwnFrame(m: Machine, e: Event, t: ThreadId)
    requires Inv(m) && Enabled(m, e) && !Step(m, e).phase.Stopped?
    requires t < |m.env.threads| && m.env.threads[t].blockedBy.DeferredReturn?
    ensures m.phase.Guest? || m.phase.Host? ==> t != m.env.current
    ensures StillDeferredOrReturned(m, Step(m, e), t)
  {
    assert ThreadOk(m, t) && ThreadOk(m, m.env.current);
    if e.Schedule? {
      ScheduleDeferred(m, e.clock, t);
    } else if HostEvent(e) {
      HostEventMoves(m, e);
    } else {
      GuestStepMoves(m, e);
    }
  }

  /** After the pick, only the picked thread's block can still change. */
  lemma DecidedBlocks(e: Env, initial: ThreadId, clock: Clock, u: ThreadId)
    requires e.current < |e.threads| && u < |e.threads| && Decide(e, initial, clock).Resume?
    requires e.threads[u].blockedBy.DeferredReturn?
    ensures var d := Decide(e, initial, clock).env; u < |d.threads| && d.threads[u].blockedBy.DeferredReturn?
  {
    ScanWakes(e, initial, clock, 0, NothingFound);
    var Picked(e1, t, relock) := Scan(e, initial, clock, 0, NothingFound);
    assert SameOrWoken(e.threads[u], e1.threads[u]);
    if t != e1.current { SwitchIs(e1, t); }
    var e2 := if t != e1.current then SwitchThread(e1, t).env else e1;
    if relock.Some? { RelockIs(e2, relock.value); }
  }

  lemma RetryKeepsDeferred(e: Env, initial: ThreadId, clock: Clock, u: ThreadId)
    requires e.current < |e.threads| && u < |e.threads| && Decide(e, initial, clock).Retry?
    requires e.threads[u].blockedBy.DeferredReturn?
    ensures var d := Decide(e, initial, clock).env; u < |d.threads| && d.threads[u].blockedBy.DeferredReturn?
  {
    ScanWakes(e, initial, clock, 0, NothingFound);
    assert SameOrWoken(e.threads[u], Decide(e, initial, clock).env.threads[u]);
  }

  lemma ScheduleDeferred(m: Machine, clock: Clock, t: ThreadId)
    requires Inv(m) && m.phase.Deciding? && !Scheduled(m, clock).phase.Stopped?
    requires t < |m.env.threads| && m.env.threads[t].blockedBy.DeferredReturn?
    ensures StillDeferredOrReturned(m, Scheduled(m, clock), t)
  {
    var initial := Top(m.frames).initial;
    var d := Decide(m.env, initial, clock);
    if d.ReturnToCaller? {
      DecideReturns(m.env, initial, clock);
      if t == initial { ReturnToKeeps(m, clock); } else { ReturnKeepsOthers(m.env, initial, clock, t); }
    } else if d.Resume? {
      DecidedBlocks(m.env, initial, clock, t);
    } else if d.Retry? {
      RetryKeepsDeferred(m.env, initial, clock, t);
    }
  }

  lemma ReturnKeepsOthers(e: Env, initial: ThreadId, clock: Clock, u: ThreadId)
    requires e.current < |e.threads| && u < |e.threads| && u != initial && Decide(e, initial, clock).ReturnToCaller?
    requires e.threads[u].blockedBy.DeferredReturn?
    ensures var d := Decide(e, initial, clock).env; u < |d.threads| && d.threads[u].blockedBy.DeferredReturn?
  {
    DecideReturns(e, initial, clock);
    assert SameOrWoken(e.threads[u], Scan(e, initial, clock, 0, NothingFound).env.threads[u]);
  }
}
