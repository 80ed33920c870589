/**
 Whole runs of the emulator (src/environment.rs:880-886, 952-1064, 1065-1265).

 The host call stack alternates between activations of `run_inner` and of the host functions they
 call; a host function re-enters `run_inner` through `run_call`. A `Machine` is the shared state
 together with that stack. An `Event` is the next thing that happens: some guest instructions, an
 SVC, one action of the host function that is running, or one pass of the scheduling loop. Which
 event comes next is arbitrary, within the discipline `Enabled` states for guest code.
 */
module Runs {
  import opened Prelude
  import opened Threads
  import opened Scheduler

  /** A host function in progress: what `handle_cpu_state` saved, and (history only) on which thread it set the flag. */
  datatype HostCall = HostCall(thread: ThreadId, savedFlag: bool)

  /** One activation of `run_inner`, with the flag saved by the `run_call` around it. */
  datatype Frame = Frame(initial: ThreadId, root: bool, callerFlag: bool, host: Option<HostCall>)

  datatype Phase =
    | Host                    // host code is running on the current thread
    | Guest                   // the current thread is executing guest code
    | Deciding                // in the scheduling loop
    | Stopped(why: Panic)

  /** `born` and `freed` are histories: each thread's stack base, and the stacks freed by exiting threads. */
  datatype Machine = Machine(env: Env, frames: seq<Frame>, phase: Phase, born: seq<u32>, freed: seq<(ThreadId, u32)>)

  datatype Event =
    // the host code that is running
    | RunRoot
    | RunCall
    | HostReturn
    | HostCpu(cpu: Cpu)
    | MutexInit(kind: MutexType)
    | MutexLock(id: MutexId)
    | MutexUnlock(id: MutexId)
    | MutexDestroy(id: MutexId)
    | SemaphoreInit(sem: nat, initialValue: u32)
    | SemaphoreDestroy(sem: nat)
    | SemaphorePost(sem: nat)
    | SemaphoreWait(sem: nat, wait: bool)
    | Join(joinee: ThreadId, ptr: u32)
    | Sleep(until: int)
    | ConditionInit(cond: nat)
    | ConditionWait(cond: nat, id: MutexId)
    | ConditionSignal(cond: nat)
    | ConditionBroadcast(cond: nat)
    | ConditionDestroy(cond: nat)
    | Create(start: u32, userData: u32, size: u32, base: u32)
    | Alloc(base: u32, size: u32)
    | Free(base: u32)
    // the guest code that is running
    | Ran(cpu: Cpu)
    | TimeSliceOver
    | CallHost
    | SvcReturnToHost
    | SvcThreadExit
    // the scheduling loop
    | Schedule(clock: Clock)

  predicate IsFrameOf(f: Frame, t: ThreadId) { f.initial == t }

  predicate IsCallOf(f: Frame, t: ThreadId) { f.initial == t && !f.root }

  /** Some `run_inner` was entered with `t` as its initial thread and has not returned. */
  ghost predicate HasFrame(frames: seq<Frame>, t: ThreadId) {
    exists k :: 0 <= k < |frames| && IsFrameOf(frames[k], t)
  }

  /** Thread `t` has a host-to-guest call in progress. */
  ghost predicate HasCall(frames: seq<Frame>, t: ThreadId) {
    exists k :: 0 <= k < |frames| && IsCallOf(frames[k], t)
  }

  function Top(frames: seq<Frame>): Frame
    requires frames != []
  {
    frames[|frames| - 1]
  }

  function Pop(frames: seq<Frame>): seq<Frame>
    requires frames != []
  {
    frames[..|frames| - 1]
  }

  predicate HostEvent(e: Event) {
    !e.Ran? && !e.TimeSliceOver? && !e.CallHost? && !e.SvcReturnToHost? && !e.SvcThreadExit? && !e.Schedule?
  }

  predicate IsMutexEvent(e: Event) { e.MutexInit? || e.MutexLock? || e.MutexUnlock? || e.MutexDestroy? }

  predicate IsWaitEvent(e: Event) {
    e.SemaphoreInit? || e.SemaphoreDestroy? || e.SemaphorePost? || e.SemaphoreWait? || e.Join? || e.Sleep?
  }

  predicate IsConditionEvent(e: Event) {
    e.ConditionInit? || e.ConditionWait? || e.ConditionSignal? || e.ConditionBroadcast? || e.ConditionDestroy?
  }

  predicate IsThreadEvent(e: Event) { e.Create? || e.Alloc? || e.Free? || e.HostCpu? }

  /**
   What the environment of the scheduler owes it: guest code returns to the host only from a call
   the host made and leaves its start routine only when no such call is left; the allocator hands
   out chunks that are free; nobody else frees a live thread's stack; joins name existing threads.
   */
  ghost predicate Enabled(m: Machine, e: Event)
    requires m.env.current < |m.env.threads|
  {
    if HostEvent(e) then
      m.phase.Host? &&
      match e
      case RunRoot => m.frames == []
      case HostReturn => m.frames != []
      case Join(j, _) => j < |m.env.threads|
      case Create(_, _, size, base) => FreshChunk(m.env.heap, base, size)
      case Alloc(base, size) => FreshChunk(m.env.heap, base, size)
      case Free(base) =>
        base in m.env.heap && forall t :: 0 <= t < |m.env.threads| ==> t == 0 || m.env.threads[t].stack != Some(base)
      case _ => true
    else if e.Schedule? then m.phase.Deciding? && m.frames != []
    else
      m.phase.Guest? && m.frames != [] &&
      (e.SvcReturnToHost? ==> HasCall(m.frames, m.env.current)) &&
      (e.SvcThreadExit? ==> !HasCall(m.frames, m.env.current))
  }

  function SetHostFlag(e: Env, t: ThreadId, flag: bool): Env
    requires t < |e.threads|
  {
    e.(threads := e.threads[t := e.threads[t].(inHostFunction := flag)])
  }

  function PhaseFor(e: Env): Phase
    requires e.current < |e.threads|
  {
    if e.threads[e.current].blockedBy.NotBlocked? then Guest else Deciding
  }

  function Enter(m: Machine, root: bool, callerFlag: bool): Machine
    requires m.env.current < |m.env.threads|
  {
    var th := m.env.threads[m.env.current];
    if !th.active || th.context.Some? then m.(phase := Stopped(EnteredOnBadThread))
    else m.(frames := m.frames + [Frame(m.env.current, root, callerFlag, None)], phase := PhaseFor(m.env))
  }

  /** `run_inner` returns, and the `run_call` around it checks and restores. */
  function Leave(m: Machine): Machine
    requires m.frames != []
  {
    var top := Top(m.frames);
    if top.root then m.(phase := Stopped(ReturnFromRoot))
    else if m.env.current != top.initial || m.env.current >= |m.env.threads| then
      m.(phase := Stopped(CallerThreadChanged))
    else m.(env := SetHostFlag(m.env, m.env.current, top.callerFlag), frames := Pop(m.frames), phase := Host)
  }

  function After<T>(m: Machine, r: Result<T>): Machine {
    match r
    case Fine(e, _) => m.(env := e)
    case Panicked(why) => m.(phase := Stopped(why))
  }

  function SetTopHost(frames: seq<Frame>, h: Option<HostCall>): seq<Frame>
    requires frames != []
  {
    frames[|frames| - 1 := Top(frames).(host := h)]
  }

  function RunCalled(m: Machine): Machine
    requires m.env.current < |m.env.threads|
  {
    var c := m.env.current;
    Enter(m.(env := SetHostFlag(m.env, c, false)), false, m.env.threads[c].inHostFunction)
  }

  /** `call_from_guest` has returned: the rest of the SVC arm of `handle_cpu_state`. */
  function HostReturned(m: Machine): Machine
    requires m.env.current < |m.env.threads| && m.frames != [] && Top(m.frames).host.Some?
  {
    var e1 := SetHostFlag(m.env, m.env.current, Top(m.frames).host.value.savedFlag);
    m.(env := e1, frames := SetTopHost(m.frames, None), phase := PhaseFor(e1))
  }

  function HostCalled(m: Machine): Machine
    requires m.env.current < |m.env.threads| && m.frames != []
  {
    var c := m.env.current;
    m.(env := SetHostFlag(m.env, c, true),
       frames := SetTopHost(m.frames, Some(HostCall(c, m.env.threads[c].inHostFunction))),
       phase := Host)
  }

  function ReturnedToHost(m: Machine): Machine
    requires m.env.current < |m.env.threads| && m.frames != []
  {
    if Top(m.frames).root then m.(phase := Stopped(ReturnFromRoot))
    else if m.env.current == Top(m.frames).initial then Leave(m)
    else m.(env := SetBlock(m.env, m.env.current, DeferredReturn), phase := Deciding)
  }

  function Exited(m: Machine): Machine
    requires m.env.current < |m.env.threads|
  {
    match ThreadExit(m.env)
    case Panicked(why) => m.(phase := Stopped(why))
    case Fine(e1, _) =>
      m.(env := e1, phase := Deciding, freed := m.freed + [(m.env.current, m.env.threads[m.env.current].stack.value)])
  }

  function Scheduled(m: Machine, clock: Clock): Machine
    requires m.env.current < |m.env.threads| && m.frames != []
  {
    match Decide(m.env, Top(m.frames).initial, clock)
    case Stop(why) => m.(phase := Stopped(why))
    case Retry(e1) => m.(env := e1)
    case ReturnToCaller(e1) => Leave(m.(env := e1))
    case Resume(e1) =>
      if e1.current >= |e1.threads| then m.(phase := Stopped(UnknownThread)) else m.(env := e1, phase := PhaseFor(e1))
  }

  function HostStep(m: Machine, e: Event): Machine
    requires m.env.current < |m.env.threads| && HostEvent(e)
  {
    match e
    case RunRoot => Enter(m, true, false)
    case RunCall => RunCalled(m)
    case HostReturn => if m.frames == [] || Top(m.frames).host.None? then m else HostReturned(m)
    case HostCpu(cpu) => m.(env := m.env.(cpu := cpu))
    case MutexInit(kind) => After(m, InitMutex(m.env, kind))
    case MutexLock(id) => After(m, LockMutex(m.env, id))
    case MutexUnlock(id) => After(m, UnlockMutex(m.env, id))
    case MutexDestroy(id) => After(m, DestroyMutex(m.env, id))
    case SemaphoreInit(s, v) => m.(env := SemInit(m.env, s, v))
    case SemaphoreDestroy(s) => After(m, SemDestroy(m.env, s))
    case SemaphorePost(s) => After(m, SemIncrement(m.env, s))
    case SemaphoreWait(s, wait) => After(m, SemDecrement(m.env, s, wait))
    case Join(j, ptr) => After(m, BlockCurrent(m.env, Joining(j, ptr)))
    case Sleep(until) => After(m, BlockCurrent(m.env, Sleeping(until)))
    case ConditionInit(c) => After(m, CondInit(m.env, c))
    case ConditionWait(c, id) => After(m, CondWait(m.env, c, id))
    case ConditionSignal(c) => After(m, CondSignal(m.env, c))
    case ConditionBroadcast(c) => After(m, CondBroadcast(m.env, c))
    case ConditionDestroy(c) => After(m, CondDestroy(m.env, c))
    case Create(start, userData, size, base) =>
      After(m.(born := m.born + [base]), NewThread(m.env, start, userData, size, base))
    case Alloc(base, size) => m.(env := m.env.(heap := m.env.heap[base := size]))
    case Free(base) => m.(env := m.env.(heap := m.env.heap - {base}))
    case _ => m
  }

  function Step(m: Machine, e: Event): Machine
    requires m.env.current < |m.env.threads|
  {
    if HostEvent(e) then HostStep(m, e)
    else if m.frames == [] then m
    else
      match e
      case Ran(cpu) => m.(env := m.env.(cpu := cpu))
      case TimeSliceOver => m.(phase := Deciding)
      case CallHost => HostCalled(m)
      case SvcReturnToHost => ReturnedToHost(m)
      case SvcThreadExit => Exited(m)
      case Schedule(clock) => Scheduled(m, clock)
      case _ => m
  }
}
