/**
 When an event that is not a decision stops the emulator, and who runs after one that does not
 (src/environment.rs:679-886, 952-1064, src/environment/mutex.rs:85-248, src/libc/pthread/cond.rs:50-160).
 */
module Outcomes {
  import opened Prelude
  import opened Threads
  import opened Scheduler
  import opened Runs
  import opened RunInvariant
  import opened Waiters
  import opened Needs
  import opened Depths

  predicate HeldByAnother(e: Env, id: MutexId) {
    id in e.mutexes && e.mutexes[id].locked.Some? && e.mutexes[id].locked.value.owner != e.current
  }

  /** The running thread is blocked already, although its host function goes on. */
  predicate CurrentWaits(e: Env) { e.current < |e.threads| && !e.threads[e.current].blockedBy.NotBlocked? }

  /** Condition variable `c` has waiters that use another mutex than `id`. */
  predicate UsedWithAnother(e: Env, c: nat, id: MutexId) {
    c in e.conds && e.conds[c].currMutex != Some(id) && (e.conds[c].waking != [] || e.conds[c].waiting != [])
  }

  function MutexRefusal(e: Env, op: Event): Option<Panic> {
    match op
    case MutexInit(_) => if e.mutexCount == 0xffff_ffff_ffff_ffff then Some(CounterOverflow) else None
    case MutexLock(id) =>
      if id !in e.mutexes then Some(UnknownMutex)
      else if Holds(e, id, e.current) && e.mutexes[id].kind.Normal? then Some(NormalMutexMisused)
      else if Holds(e, id, e.current) && e.mutexes[id].kind.Recursive? && Depth(e, id, e.current) >= 0xffff_ffff
      then Some(CounterOverflow)
      else if HeldByAnother(e, id) && CurrentWaits(e) then Some(AlreadyBlocked) else None
    case MutexUnlock(id) =>
      if id !in e.mutexes then Some(UnknownMutex)
      else if !Holds(e, id, e.current) && e.mutexes[id].kind.Normal? then Some(NormalMutexMisused) else None
    case MutexDestroy(id) => if id !in e.mutexes then Some(UnknownMutex) else None
    case _ => None
  }

  function ConditionRefusal(e: Env, op: Event): Option<Panic> {
    match op
    case ConditionInit(c) => if c in e.conds then Some(ConditionMisused) else None
    case ConditionWait(c, id) =>
      if MutexRefusal(e, MutexUnlock(id)).Some? then MutexRefusal(e, MutexUnlock(id))
      else if !Holds(e, id, e.current) then Some(ConditionMisused)
      else if CurrentWaits(e) then Some(AlreadyBlocked)
      else if c !in e.conds then Some(UnknownCondition)
      else if UsedWithAnother(e, c, id) then Some(ConditionMisused) else None
    case ConditionSignal(c) => if c !in e.conds then Some(UnknownCondition) else None
    case ConditionBroadcast(c) => if c !in e.conds then Some(UnknownCondition) else None
    case ConditionDestroy(c) =>
      if c !in e.conds then Some(UnknownCondition)
      else if e.conds[c].waiting != [] || e.conds[c].waking != [] then Some(ConditionMisused) else None
    case _ => None
  }

  /** What the emulator refuses to go on with, for every event but a decision. */
  function Refusal(e: Env, op: Event): Option<Panic> {
    match op
    case SemaphorePost(s) => if s !in e.sems then Some(UnknownSemaphore) else None
    case SemaphoreWait(s, wait) =>
      if s !in e.sems then Some(UnknownSemaphore)
      else if wait && e.sems[s].value <= 0 && CurrentWaits(e) then Some(AlreadyBlocked) else None
    case Join(_, _) => if CurrentWaits(e) then Some(AlreadyBlocked) else None
    case Sleep(_) => if CurrentWaits(e) then Some(AlreadyBlocked) else None
    case Create(_, _, size, base) =>
      if base + size >= 0x1_0000_0000 || (base + size) % 4 != 0 then Some(StackMisaligned) else None
    case SvcThreadExit => if e.current == 0 then Some(NonExitingThreadExited) else None
    case _ => if IsConditionEvent(op) then ConditionRefusal(e, op) else MutexRefusal(e, op)
  }

  /** `n` stopped for `why`, if there is one, and did not stop otherwise. */
  predicate StopsFor(n: Machine, why: Option<Panic>) {
    if why.Some? then n.phase == Stopped(why.value) else !n.phase.Stopped?
  }

  lemma {:induction false} MutexRefusals(m: Machine, e: Event)
    requires m.env.current < |m.env.threads| && !m.phase.Stopped? && IsMutexEvent(e) && CountsOk(m.env)
    ensures StopsFor(HostStep(m, e), MutexRefusal(m.env, e))
  {
  }

  lemma {:induction false} WaitRefusals(m: Machine, e: Event)
    requires m.env.current < |m.env.threads| && !m.phase.Stopped? && e.ConditionWait? && CountsOk(m.env)
    ensures StopsFor(HostStep(m, e), ConditionRefusal(m.env, e))
  {
    hide UnlockMutex;
    UnlockRefuses(m.env, e.id);
    MutexOpsKeepCounts(m.env, e.id, Normal);
    if UnlockMutex(m.env, e.id).Fine? { UnlockLeaves(m.env, e.id); }
  }

  lemma {:induction false} UnlockRefuses(e: Env, id: MutexId)
    requires CountsOk(e)
    ensures match UnlockMutex(e, id)
            case Panicked(why) => MutexRefusal(e, MutexUnlock(id)) == Some(why)
            case Fine(_, answer) => MutexRefusal(e, MutexUnlock(id)).None? && (answer.Got? <==> Holds(e, id, e.current))
  {
  }

  lemma {:induction false} ConditionRefusals(m: Machine, e: Event)
    requires m.env.current < |m.env.threads| && !m.phase.Stopped? && IsConditionEvent(e) && !e.ConditionWait?
    ensures StopsFor(HostStep(m, e), ConditionRefusal(m.env, e))
  {
  }

  lemma {:induction false} WaitEventRefusals(m: Machine, e: Event)
    requires m.env.current < |m.env.threads| && !m.phase.Stopped? && IsWaitEvent(e)
    ensures StopsFor(HostStep(m, e), Refusal(m.env, e))
  {
  }

  lemma {:induction false} CreateRefusals(m: Machine, e: Event)
    requires m.env.current < |m.env.threads| && !m.phase.Stopped? && e.Create?
    requires m.env.threads[m.env.current].context.None?
    ensures StopsFor(HostStep(m, e), Refusal(m.env, e))
  {
    if e.base + e.size < TWO32 && (e.base + e.size) % 4 == 0 {
      NewThreadIs(m.env, e.start, e.userData, e.size, e.base);
    }
  }

  lemma {:induction false} StackEventRefusals(m: Machine, e: Event)
    requires Inv(m) && Enabled(m, e) && StackEvent(e)
    ensures !Step(m, e).phase.Stopped? && Refusal(m.env, e).None?
  {
    hide StacksOk;
    assert ThreadOk(m, m.env.current);
  }

  lemma {:induction false} GuestRefusals(m: Machine, e: Event)
    requires Inv(m) && Enabled(m, e) && !HostEvent(e) && !e.Schedule?
    ensures StopsFor(Step(m, e), Refusal(m.env, e))
  {
    hide HostStep, Scheduled;
    assert ThreadOk(m, m.env.current);
    if e.SvcReturnToHost? { CallsAreNotRoot(m, m.env.current); }
  }

  /** Every event but a decision stops the emulator exactly when it is to be refused, and for that reason. */
  lemma {:induction false} StopsExactly(m: Machine, e: Event)
    requires Inv(m) && Enabled(m, e) && !e.Schedule? && CountsOk(m.env)
    ensures StopsFor(Step(m, e), Refusal(m.env, e))
  {
    hide HostStep, StacksOk, MutexRefusal, ConditionRefusal;
    assert ThreadOk(m, m.env.current);
    if !HostEvent(e) {
      GuestRefusals(m, e);
    } else if e.ConditionWait? {
      WaitRefusals(m, e);
    } else if IsConditionEvent(e) {
      ConditionRefusals(m, e);
    } else if IsMutexEvent(e) {
      MutexRefusals(m, e);
    } else if IsWaitEvent(e) {
      WaitEventRefusals(m, e);
    } else if e.Create? {
      CreateRefusals(m, e);
    } else {
      StackEventRefusals(m, e);
    }
  }

  // ---------------------------------------------------------------- who runs next

  /** The guest return is of the activation on top: it was made by the thread that activation was entered with. */
  predicate ReturnsFromTop(m: Machine, e: Event) {
    e.SvcReturnToHost? && m.frames != [] && Top(m.frames).initial == m.env.current
  }

  /** What executes after the event: guest code only on a thread that waits for nothing. */
  function RunsNext(m: Machine, e: Event): Phase
    requires m.env.current < |m.env.threads|
  {
    match e
    case RunRoot => if CurrentWaits(m.env) then Deciding else Guest
    case RunCall => if CurrentWaits(m.env) then Deciding else Guest
    case HostReturn => if CurrentWaits(m.env) then Deciding else Guest
    case Ran(_) => Guest
    case TimeSliceOver => Deciding
    case SvcThreadExit => Deciding
    case SvcReturnToHost => if ReturnsFromTop(m, e) then Host else Deciding
    case _ => Host
  }

  /** The activations after the event: entered on the current thread, left only by their own return. */
  function FramesNext(m: Machine, e: Event): seq<Frame> {
    match e
    case RunRoot => [Frame(m.env.current, true, false, None)]
    case RunCall => m.frames + [Frame(m.env.current, false, m.frames != [], None)]
    case HostReturn => if m.frames == [] then [] else m.frames[|m.frames| - 1 := Top(m.frames).(host := None)]
    case CallHost =>
      if m.frames == [] then []
      else m.frames[|m.frames| - 1 := Top(m.frames).(host := Some(HostCall(m.env.current, false)))]
    case SvcReturnToHost => if ReturnsFromTop(m, e) then m.frames[..|m.frames| - 1] else m.frames
    case _ => m.frames
  }

  lemma {:induction false} HostStepGoesOn(m: Machine, e: Event)
    requires Inv(m) && Enabled(m, e) && HostEvent(e) && !Step(m, e).phase.Stopped?
    ensures Step(m, e).phase == RunsNext(m, e) && Step(m, e).frames == FramesNext(m, e)
  {
    hide LockMutex, UnlockMutex, InitMutex, DestroyMutex, CondWait, NewThread, BlockCurrent, SemDecrement, StacksOk;
    assert ThreadOk(m, m.env.current);
  }

  lemma {:induction false} GuestStepGoesOn(m: Machine, e: Event)
    requires Inv(m) && Enabled(m, e) && !HostEvent(e) && !e.Schedule? && !Step(m, e).phase.Stopped?
    ensures Step(m, e).phase == RunsNext(m, e) && Step(m, e).frames == FramesNext(m, e)
  {
    hide HostStep, Scheduled, StacksOk;
    assert ThreadOk(m, m.env.current);
  }

  /** After every event but a decision: what executes next, and which activations there are. */
  lemma {:induction false} GoesOnWith(m: Machine, e: Event)
    requires Inv(m) && Enabled(m, e) && !e.Schedule? && !Step(m, e).phase.Stopped?
    ensures Step(m, e).phase == RunsNext(m, e) && Step(m, e).frames == FramesNext(m, e)
  {
    hide Step, Inv, Enabled, RunsNext, FramesNext;
    if HostEvent(e) { HostStepGoesOn(m, e); } else { GuestStepGoesOn(m, e); }
  }
}
