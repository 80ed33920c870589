/**
 The state of the emulator that threads share: the thread table, the one CPU, the stored
 contexts, mutexes, semaphores, condition variables, and the guest heap's live chunks
 (src/environment.rs, src/environment/mutex.rs, src/libc/semaphore.rs, src/libc/pthread/cond.rs).

 Every operation here is a function from one state to the next, or to a panic. The class in
 Environment.dfy performs the same operations by assignment and is proved against these.
 */
module Threads {
  import opened Prelude

  type ThreadId = nat
  type MutexId = nat

  // ---------------------------------------------------------------- CPU

  const SP: nat := 13
  const LR: nat := 14
  const PC: nat := 15
  const CPSR_USER_MODE: u32 := 0x10
  const CPSR_THUMB: u32 := 0x20

  const ZeroRegs: seq<u32> := [0, 0, 0, 0, 0, 0, 0, 0, 0, 0, 0, 0, 0, 0, 0, 0]

  type Regs = r: seq<u32> | |r| == 16 witness ZeroRegs

  /** Everything `swap_context` exchanges. */
  datatype Cpu = Cpu(regs: Regs, cpsr: u32)

  const FreshContext: Cpu := Cpu(ZeroRegs, 0)

  function SetReg(c: Cpu, r: nat, v: u32): Cpu
    requires r < 16
  {
    c.(regs := c.regs[r := v])
  }

  predicate IsThumb(f: u32) { f % 2 == 1 }

  function WithoutThumbBit(f: u32): u32 { f - f % 2 }

  /** CPSR with the Thumb flag, bit 5, forced to `thumb`. */
  function WithThumbFlag(cpsr: u32, thumb: bool): u32 {
    cpsr / 64 * 64 + (if thumb then CPSR_THUMB else 0) + cpsr % 32
  }

  function Branch(c: Cpu, f: u32): Cpu {
    SetReg(c, PC, WithoutThumbBit(f)).(cpsr := WithThumbFlag(c.cpsr, IsThumb(f)))
  }

  function BranchWithLink(c: Cpu, f: u32, link: u32): Cpu {
    SetReg(Branch(c, f), LR, link)
  }

  // ---------------------------------------------------------------- tables

  datatype Block =
    | NotBlocked
    | Sleeping(until: int)
    | OnMutex(mutex: MutexId)
    | OnSemaphore(sem: nat)
    | OnCondition(cond: nat)
    | Joining(joinee: ThreadId, ptr: u32)
    | DeferredReturn

  datatype Thread = Thread(
    active: bool,
    blockedBy: Block,
    inStartRoutine: bool,
    returnValue: Option<u32>,
    inHostFunction: bool,
    context: Option<Cpu>,
    stack: Option<u32>)          // lowest address of the thread's stack

  datatype MutexType = Normal | ErrorCheck | Recursive

  type Positive = x: int | 0 < x witness 1

  datatype Lock = Lock(owner: ThreadId, count: Positive)

  datatype Mutex = Mutex(kind: MutexType, waitingCount: nat, locked: Option<Lock>)

  datatype Sem = Sem(value: int, waiting: set<ThreadId>)

  datatype Cond = Cond(waiting: seq<ThreadId>, waking: seq<ThreadId>, currMutex: Option<MutexId>)

  datatype Env = Env(
    threads: seq<Thread>,
    current: ThreadId,
    cpu: Cpu,
    mutexes: map<MutexId, Mutex>,
    mutexCount: nat,
    sems: map<nat, Sem>,
    conds: map<nat, Cond>,
    mem: map<u32, u32>,          // guest words written by the scheduler
    heap: map<u32, u32>,         // live heap chunks: base -> size
    threadExitRoutine: u32)

  /** Why the emulator stopped. */
  datatype Panic =
    // outcomes the source reports about the guest or a host function
    | Deadlock
    | NonExitingThreadExited
    | NormalMutexMisused
    | UnknownMutex
    | UnknownSemaphore
    | UnknownCondition
    | ConditionMisused
    | AlreadyBlocked
    | CounterOverflow
    | StackMisaligned
    // assertions and unwraps about the scheduler's own bookkeeping
    | SwitchToSelf
    | ContextMissing
    | ContextPresent
    | RelockFailed
    | CountAboveOne
    | EnteredOnBadThread
    | ReturnFromRoot
    | CallerThreadChanged
    | StackMissing
    | StackNotAllocated
    | ReturnValueMissing
    | WaitedSemaphoreMissing
    | WaitedConditionMissing
    | ConditionWithoutMutex
    | UnknownThread

  /** Panics that only a broken invariant of the emulator itself could cause. */
  predicate Internal(p: Panic) {
    p.SwitchToSelf? || p.ContextMissing? || p.ContextPresent? || p.RelockFailed? || p.CountAboveOne? ||
      p.EnteredOnBadThread? ||
    p.ReturnFromRoot? || p.CallerThreadChanged? || p.StackMissing? || p.StackNotAllocated? ||
    p.ReturnValueMissing? || p.WaitedSemaphoreMissing? || p.WaitedConditionMissing? || p.ConditionWithoutMutex? ||
      p.UnknownThread?
  }

  datatype Result<+T> = Fine(env: Env, value: T) | Panicked(why: Panic)

  const EBUSY: int := 16
  const EDEADLK: int := 11
  const EPERM: int := 1
  const EINVAL: int := 22

  datatype Count = Got(count: nat) | Errno(errno: int)

  function SetBlock(e: Env, t: ThreadId, b: Block): Env
    requires t < |e.threads|
  {
    e.(threads := e.threads[t := e.threads[t].(blockedBy := b)])
  }

  // ---------------------------------------------------------------- mutexes

  function InitMutex(e: Env, kind: MutexType): Result<MutexId> {
    if e.mutexCount == U64_MAX then Panicked(CounterOverflow)
    else Fine(e.(mutexes := e.mutexes[e.mutexCount := Mutex(kind, 0, None)], mutexCount := e.mutexCount + 1),
      e.mutexCount)
  }

  function DestroyMutex(e: Env, id: MutexId): Result<Count> {
    if id !in e.mutexes then Panicked(UnknownMutex)
    else if e.mutexes[id].locked.Some? || e.mutexes[id].waitingCount != 0 then Fine(e, Errno(EBUSY))
    else Fine(e.(mutexes := e.mutexes - {id}), Got(0))
  }

  predicate MutexIsLocked(e: Env, id: MutexId) {
    id in e.mutexes && e.mutexes[id].locked.Some?
  }

  function LockMutex(e: Env, id: MutexId): Result<Count>
    requires e.current < |e.threads|
  {
    if id !in e.mutexes then Panicked(UnknownMutex)
    else
      var m := e.mutexes[id];
      match m.locked
      case None =>
        Fine(e.(mutexes := e.mutexes[id := m.(locked := Some(Lock(e.current, 1)))]), Got(1))
      case Some(lock) =>
        if lock.owner == e.current then
          match m.kind
          case Normal => Panicked(NormalMutexMisused)
          case ErrorCheck => Fine(e, Errno(EDEADLK))
          case Recursive =>
            if lock.count >= U32_MAX then Panicked(CounterOverflow)
            else Fine(e.(mutexes := e.mutexes[id := m.(locked := Some(Lock(lock.owner, lock.count + 1)))]),
              Got(lock.count + 1))
        else if e.threads[e.current].blockedBy != NotBlocked then Panicked(AlreadyBlocked)
        else
          Fine(SetBlock(e.(mutexes := e.mutexes[id := m.(waitingCount := m.waitingCount + 1)]), e.current, OnMutex(id)),
            Got(1))
  }

  function UnlockMutex(e: Env, id: MutexId): Result<Count> {
    if id !in e.mutexes then Panicked(UnknownMutex)
    else
      var m := e.mutexes[id];
      if m.locked.None? || m.locked.value.owner != e.current then
        if m.kind.Normal? then Panicked(NormalMutexMisused) else Fine(e, Errno(EPERM))
      else if m.locked.value.count == 1 then
        Fine(e.(mutexes := e.mutexes[id := m.(locked := None)]), Got(0))
      else if !m.kind.Recursive? then Panicked(CountAboveOne)
      else
        var lock := m.locked.value;
        Fine(e.(mutexes := e.mutexes[id := m.(locked := Some(Lock(lock.owner, lock.count - 1)))]), Got(lock.count - 1))
  }

  /** Takes the mutex for a thread that just stopped waiting for it; any failure inside is a broken invariant. */
  function RelockMutex(e: Env, id: MutexId): Result<()>
    requires e.current < |e.threads|
  {
    match LockMutex(e, id)
    case Panicked(_) => Panicked(RelockFailed)
    case Fine(_, Errno(_)) => Panicked(RelockFailed)
    case Fine(e', Got(_)) =>
      if id !in e'.mutexes then Panicked(RelockFailed)
      else
        var m := e'.mutexes[id];
        if m.waitingCount > 0 then Fine(e'.(mutexes := e'.mutexes[id := m.(waitingCount := m.waitingCount - 1)]), ())
        else Fine(e', ())
  }

  // ---------------------------------------------------------------- semaphores, joins, sleeping

  const I32_MAX: int := 0x7fff_ffff

  /** `value as i32`: from 2^31 on the number turns negative. */
  function AsI32(value: u32): int {
    if value <= I32_MAX then value else value - TWO32
  }

  function SemInit(e: Env, s: nat, value: u32): Env {
    if s in e.sems then e else e.(sems := e.sems[s := Sem(AsI32(value), {})])
  }

  /** Adding one to an i32, which wraps in an optimised build. */
  function WrappingNext(value: int): int {
    if value == I32_MAX then -I32_MAX - 1 else value + 1
  }

  function SemIncrement(e: Env, s: nat): Result<()> {
    if s !in e.sems then Panicked(UnknownSemaphore)
    else Fine(e.(sems := e.sems[s := e.sems[s].(value := WrappingNext(e.sems[s].value))]), ())
  }

  /** `sem_destroy`, which does not look for threads that wait. */
  function SemDestroy(e: Env, s: nat): Result<int> {
    Fine(e.(sems := e.sems - {s}), if s in e.sems then 0 else EINVAL)
  }

  function SemDecrement(e: Env, s: nat, wait: bool): Result<bool>
    requires e.current < |e.threads|
  {
    if s !in e.sems then Panicked(UnknownSemaphore)
    else if e.sems[s].value > 0 then
      Fine(e.(sems := e.sems[s := e.sems[s].(value := e.sems[s].value - 1)]), true)
    else if !wait then Fine(e, false)
    else if e.threads[e.current].blockedBy != NotBlocked then Panicked(AlreadyBlocked)
    else
      Fine(SetBlock(e.(sems := e.sems[s := e.sems[s].(waiting := e.sems[s].waiting + {e.current})]), e.current,
        OnSemaphore(s)), true)
  }

  /** `sleep` (up to the optional nested run) and `join_with_thread`: both only set the current thread's block. */
  function BlockCurrent(e: Env, b: Block): Result<()>
    requires e.current < |e.threads|
  {
    if e.threads[e.current].blockedBy != NotBlocked then Panicked(AlreadyBlocked)
    else Fine(SetBlock(e, e.current, b), ())
  }

  // ---------------------------------------------------------------- condition variables

  function CondInit(e: Env, c: nat): Result<()> {
    if c in e.conds then Panicked(ConditionMisused) else Fine(e.(conds := e.conds[c := Cond([], [], None)]), ())
  }

  function CondWait(e: Env, c: nat, id: MutexId): Result<()>
    requires e.current < |e.threads|
  {
    match UnlockMutex(e, id)
    case Panicked(w) => Panicked(w)
    case Fine(_, Errno(_)) => Panicked(ConditionMisused)
    case Fine(e1, Got(_)) =>
      if e1.threads[e1.current].blockedBy != NotBlocked then Panicked(AlreadyBlocked)
      else if c !in e1.conds then Panicked(UnknownCondition)
      else
        var h := e1.conds[c];
        if h.currMutex != Some(id) && !(h.waking == [] && h.waiting == []) then Panicked(ConditionMisused)
        else
          var h' := h.(currMutex := Some(id), waiting := h.waiting + [e1.current]);
          Fine(SetBlock(e1.(conds := e1.conds[c := h']), e1.current, OnCondition(c)), ())
  }

  function CondSignal(e: Env, c: nat): Result<()> {
    if c !in e.conds then Panicked(UnknownCondition)
    else
      var h := e.conds[c];
      if h.waiting == [] then Fine(e, ())
      else Fine(e.(conds := e.conds[c := h.(waiting := h.waiting[1..], waking := h.waking + [h.waiting[0]])]), ())
  }

  function CondBroadcast(e: Env, c: nat): Result<()> {
    if c !in e.conds then Panicked(UnknownCondition)
    else
      var h := e.conds[c];
      Fine(e.(conds := e.conds[c := h.(waiting := [], waking := h.waking + h.waiting)]), ())
  }

  function CondDestroy(e: Env, c: nat): Result<()> {
    if c !in e.conds then Panicked(UnknownCondition)
    else if e.conds[c].waiting != [] || e.conds[c].waking != [] then Panicked(ConditionMisused)
    else Fine(e.(conds := e.conds - {c}), ())
  }

  // ---------------------------------------------------------------- switching and creating threads

  function SwitchThread(e: Env, t: ThreadId): Result<()>
    requires e.current < |e.threads| && t < |e.threads|
  {
    if t == e.current then Panicked(SwitchToSelf)
    else if e.threads[t].context.None? then Panicked(ContextMissing)
    else
      // the incoming context is taken out, exchanged with the CPU, and stored for the outgoing thread
      var incoming := e.threads[t].context.value;
      var taken := e.threads[t := e.threads[t].(context := None)];
      if taken[e.current].context.Some? then Panicked(ContextPresent)
      else
        Fine(e.(threads := taken[e.current := taken[e.current].(context := Some(e.cpu))],
                cpu := incoming,
                current := t), ())
  }

  /** No live chunk overlaps `[base, base + size)`. */
  predicate FreshChunk(heap: map<u32, u32>, base: u32, size: u32) {
    && size > 0
    && base + size <= TWO32
    && forall b :: b in heap ==> b + heap[b] <= base || base + size <= b
  }

  /** The registers a new thread starts with. */
  function StartCpu(start: u32, userData: u32, stackHigh: u32, exitRoutine: u32): Cpu {
    BranchWithLink(SetReg(SetReg(FreshContext.(cpsr := CPSR_USER_MODE), SP, stackHigh), 0, userData), start,
      exitRoutine)
  }

  /** `base` is the address the allocator returned for the new stack. */
  function NewThread(e: Env, start: u32, userData: u32, size: u32, base: u32): Result<ThreadId>
    requires e.current < |e.threads|
  {
    if base + size >= TWO32 || (base + size) % 4 != 0 then Panicked(StackMisaligned)
    else
      var t := |e.threads|;
      var previous := e.current;
      var e1 := e.(heap := e.heap[base := size],
                   threads := e.threads + [Thread(true, NotBlocked, true, None, false, Some(FreshContext),
                     Some(base))]);
      match SwitchThread(e1, t)
      case Panicked(w) => Panicked(w)
      case Fine(e2, _) =>
        var c1 := e2.cpu.(cpsr := CPSR_USER_MODE);
        var c2 := SetReg(SetReg(c1, SP, base + size), 0, userData);
        match SwitchThread(e2.(cpu := BranchWithLink(c2, start, e.threadExitRoutine)), previous)
        case Panicked(w) => Panicked(w)
        case Fine(e3, _) => Fine(e3, t)
  }

  /** What SVC_THREAD_EXIT does to the current thread. */
  function ThreadExit(e: Env): Result<()>
    requires e.current < |e.threads|
  {
    var th := e.threads[e.current];
    if !th.inStartRoutine then Panicked(NonExitingThreadExited)
    else if th.stack.None? then Panicked(StackMissing)
    else if th.stack.value !in e.heap then Panicked(StackNotAllocated)
    else
      Fine(e.(threads := e.threads[e.current := th.(returnValue := Some(e.cpu.regs[0]), active := false,
        stack := None)],
              heap := e.heap - {th.stack.value}), ())
  }
}
