/**
 The emulator's state as the object it is in the source, updated in place, and the recursion of
 `run_inner` through host functions (src/environment.rs, src/environment/mutex.rs).

 Each operation is proved against its function on values in Threads.dfy or Scheduler.dfy. What the
 guest code and the host functions do next is read from `script`; the ghost fields mirror the host
 call stack, so that the recursion is proved to perform exactly the run of Runs.dfy.
 */
module Environments {
  import opened Prelude
  import T = Threads
  import S = Scheduler
  import R = Runs
  import I = RunInvariant

  datatype Status<+V> = Ok(value: V) | Panic(why: T.Panic)

  /** How a part of an activation of `run_inner` ends; `Yielded` passes on to the activation's next part. */
  datatype Exit =
    | Returned
    | Yielded
    | OutOfScript
    | Stopped

  /** What one candidate yields to the scan. */
  datatype Tried =
    | Nothing
    | Later(until: int)
    | Woken(relock: Option<T.MutexId>)
    | WokenGoOn(mutex: T.MutexId)
    | ReturnHere
    | Failed(why: T.Panic)

  /** What the scan over all candidates yields. */
  datatype Sought =
    | Suitable(thread: T.ThreadId, relock: Option<T.MutexId>)
    | CanReturn(caller: T.ThreadId)
    | NoneSuitable(next: Option<int>)
    | Broken(why: T.Panic)

  /** `m` is sound, the events `es` may follow, and they lead to `goal`. */
  ghost predicate OnTrack(goal: R.Machine, m: R.Machine, es: seq<R.Event>) {
    I.Inv(m) && I.Legal(m, es) && I.Run(m, es) == goal
  }

  lemma StartsOnTrack(m: R.Machine, es: seq<R.Event>)
    requires I.Inv(m) && I.Legal(m, es)
    ensures OnTrack(I.Run(m, es), m, es)
  {
  }

  lemma EndsOnTrack(goal: R.Machine, m: R.Machine)
    requires OnTrack(goal, m, [])
    ensures m == goal
  {
  }

  lemma RootStays(m: R.Machine)
    requires I.ReadyToLeave(m)
    ensures m.frames != [] && !R.Top(m.frames).root
  {
  }

  lemma Basics(goal: R.Machine, m: R.Machine, es: seq<R.Event>)
    requires OnTrack(goal, m, es)
    ensures m.env.current < |m.env.threads| && !m.phase.Stopped? && I.Inv(m)
    ensures m.phase.Host? <==> m.frames == [] || R.Top(m.frames).host.Some?
    ensures !m.phase.Host? ==>
            (m.phase.Guest? || m.phase.Deciding?) && (m.phase.Guest? ==> m.phase == R.PhaseFor(m.env))
  {
  }

  /** Performing the first of the events keeps on track, or ends the run for a reason that is not internal. */
  lemma Next(goal: R.Machine, m: R.Machine, es: seq<R.Event>)
    requires OnTrack(goal, m, es) && es != []
    ensures m.env.current < |m.env.threads| && R.Enabled(m, es[0])
    ensures I.Good(R.Step(m, es[0]))
    ensures var n := R.Step(m, es[0]);
            if n.phase.Stopped? then n == goal && es[1..] == [] else OnTrack(goal, n, es[1..])
  {
    hide R.Step, I.Inv;
    assert I.Inv(m) && R.Enabled(m, es[0]);
    I.StepKeeps(m, es[0]);
    var n := R.Step(m, es[0]);
    assert I.Legal(n, es[1..]) && I.Run(m, es) == I.Run(n, es[1..]);
    if n.phase.Stopped? { assert I.Run(n, []) == n; }
  }

  /** How one pass of the scheduling loop ends. */
  datatype Pass =
    | GoOn
    | GoBack
    | TryAgain
    | GiveUp(why: T.Panic)

  function Why<V>(r: Status<V>): Option<T.Panic> {
    match r
    case Ok(_) => None
    case Panic(why) => Some(why)
  }

  /** The actions of host code that do not call guest code leave the host call stack alone. */
  lemma StaysHost(m: R.Machine, e: R.Event)
    requires m.env.current < |m.env.threads| && m.phase.Host? && R.Enabled(m, e)
    requires !e.RunRoot? && !e.RunCall? && !e.HostReturn?
    ensures R.HostEvent(e) && R.Step(m, e) == R.HostStep(m, e)
    ensures R.IsMutexEvent(e) || R.IsWaitEvent(e) || R.IsConditionEvent(e) || R.IsThreadEvent(e)
    ensures R.HostStep(m, e).phase.Stopped? || (R.HostStep(m, e).phase.Host? && R.HostStep(m, e).frames == m.frames)
  {
  }

  lemma CallsRun(m: R.Machine)
    requires m.env.current < |m.env.threads| && I.Inv(m) && m.phase.Host?
    ensures R.Step(m, R.RunCall) == R.RunCalled(m) && !R.RunCalled(m).phase.Stopped?
  {
    I.EnterKeeps(m, false);
  }

  lemma HostReturnIs(m: R.Machine, e: R.Event)
    requires m.env.current < |m.env.threads| && m.phase.Host? && m.frames != [] && R.Top(m.frames).host.Some?
    requires R.Enabled(m, e) && (e.HostReturn? || e.RunRoot?)
    ensures R.Step(m, e) == R.HostReturned(m)
  {
  }

  lemma GuestStepIs(m: R.Machine, e: R.Event)
    requires m.env.current < |m.env.threads| && m.phase.Guest? && R.Enabled(m, e) && I.Inv(m)
    ensures m.frames != [] && (e.CallHost? || e.SvcReturnToHost? ==> !R.Step(m, e).phase.Stopped?)
    ensures match e
            case Ran(cpu) => R.Step(m, e) == m.(env := m.env.(cpu := cpu))
            case TimeSliceOver => R.Step(m, e) == m.(phase := R.Deciding)
            case CallHost => R.Step(m, e) == R.HostCalled(m)
            case SvcReturnToHost => R.Step(m, e) == R.ReturnedToHost(m) && R.HasCall(m.frames, m.env.current)
            case SvcThreadExit => R.Step(m, e) == R.Exited(m)
            case _ => false
  {
    hide I.Inv, R.HostStep, R.Scheduled, R.Exited, R.ReturnedToHost;
    GuestBasics(m);
    if e.SvcReturnToHost? {
      I.SvcReturnKeeps(m);
      StillGoing(R.ReturnedToHost(m));
    }
  }

  lemma StillGoing(m: R.Machine)
    requires I.Inv(m)
    ensures !m.phase.Stopped?
  {
  }

  /** What `Enter` does when its assertions hold. */
  lemma EnterIs(m: R.Machine, root: bool, callerFlag: bool)
    requires m.env.current < |m.env.threads| && !R.Enter(m, root, callerFlag).phase.Stopped?
    ensures m.env.threads[m.env.current].active && m.env.threads[m.env.current].context.None?
    ensures R.Enter(m, root, callerFlag)
            == m.(frames := m.frames + [R.Frame(m.env.current, root, callerFlag, None)], phase := R.PhaseFor(m.env))
  {
  }

  lemma ScheduleIs(m: R.Machine, e: R.Event)
    requires m.env.current < |m.env.threads| && m.phase.Deciding? && R.Enabled(m, e) && I.Good(R.Step(m, e))
    ensures e.Schedule? && m.frames != []
    ensures match S.Decide(m.env, R.Top(m.frames).initial, e.clock)
            case Stop(why) => R.Step(m, e) == m.(phase := R.Stopped(why))
            case Retry(e1) => R.Step(m, e) == m.(env := e1)
            case ReturnToCaller(e1) => R.Step(m, e) == R.Leave(m.(env := e1))
            case Resume(e1) => e1.current < |e1.threads| && R.Step(m, e) == m.(env := e1, phase := R.PhaseFor(e1))
  {
  }

  lemma GuestBasics(m: R.Machine)
    requires I.Inv(m) && m.phase.Guest?
    ensures m.env.current < |m.env.threads| && m.frames != [] && R.Top(m.frames).host.None?
  {
  }

  /** When a pass of the scheduling loop makes `run_inner` return, it is in a state to do so. */
  lemma ReturnIsReady(m: R.Machine, clock: S.Clock)
    requires I.Inv(m) && m.phase.Deciding?
    ensures var d := S.Decide(m.env, R.Top(m.frames).initial, clock);
            d.ReturnToCaller? ==> I.ReadyToLeave(m.(env := d.env)) && !R.Leave(m.(env := d.env)).phase.Stopped?
  {
    var initial := R.Top(m.frames).initial;
    if S.Scan(m.env, initial, clock, 0, S.NothingFound).ReturnTo? {
      I.ReturnToIsReady(m, clock);
      I.LeaveKeeps(m.(env := S.Decide(m.env, initial, clock).env));
    }
  }

  class Environment {
    var threads: seq<T.Thread>
    var currentThread: T.ThreadId
    var cpu: T.Cpu
    var mutexes: map<T.MutexId, T.Mutex>
    var mutexCount: nat
    var sems: map<nat, T.Sem>
    var conds: map<nat, T.Cond>
    var mem: map<u32, u32>
    var heap: map<u32, u32>
    const threadExitRoutine: u32

    var script: seq<R.Event>
    ghost var frames: seq<R.Frame>
    ghost var phase: R.Phase
    ghost var born: seq<u32>
    ghost var freed: seq<(T.ThreadId, u32)>

    ghost function View(): T.Env
      reads this
    {
      T.Env(threads, currentThread, cpu, mutexes, mutexCount, sems, conds, mem, heap, threadExitRoutine)
    }

    /** The object is in the state the specification prescribes, or both have stopped for the same reason. */
    ghost predicate Matches<V>(spec: T.Result<V>, r: Status<V>)
      reads this
    {
      match spec
      case Fine(e, v) => r == Ok(v) && View() == e
      case Panicked(why) => r == Panic(why)
    }

    // -------------------------------------------------------------- mutexes

    method InitMutex(kind: T.MutexType) returns (r: Status<T.MutexId>)
      modifies `mutexes, `mutexCount
      ensures Matches(T.InitMutex(old(View()), kind), r)
    {
      var id := mutexCount;
      if mutexCount == U64_MAX { return Panic(T.CounterOverflow); }
      mutexCount := mutexCount + 1;
      mutexes := mutexes[id := T.Mutex(kind, 0, None)];
      return Ok(id);
    }

    method DestroyMutex(id: T.MutexId) returns (r: Status<T.Count>)
      modifies `mutexes
      ensures Matches(T.DestroyMutex(old(View()), id), r)
    {
      if id !in mutexes { return Panic(T.UnknownMutex); }
      if mutexes[id].locked.Some? { return Ok(T.Errno(T.EBUSY)); }
      if mutexes[id].waitingCount != 0 { return Ok(T.Errno(T.EBUSY)); }
      mutexes := mutexes - {id};
      return Ok(T.Got(0));
    }

    method BlockOnMutex(id: T.MutexId) returns (r: Status<()>)
      requires currentThread < |threads|
      modifies `threads
      ensures if old(threads[currentThread].blockedBy) != T.NotBlocked then r == Panic(T.AlreadyBlocked)
              else r == Ok(()) && View() == T.SetBlock(old(View()), currentThread, T.OnMutex(id))
    {
      if threads[currentThread].blockedBy != T.NotBlocked { return Panic(T.AlreadyBlocked); }
      threads := threads[currentThread := threads[currentThread].(blockedBy := T.OnMutex(id))];
      return Ok(());
    }

    method LockMutex(id: T.MutexId) returns (r: Status<T.Count>)
      requires currentThread < |threads|
      modifies `threads, `mutexes
      ensures Matches(T.LockMutex(old(View()), id), r)
    {
      if id !in mutexes { return Panic(T.UnknownMutex); }
      var m := mutexes[id];
      if m.locked.None? {
        mutexes := mutexes[id := m.(locked := Some(T.Lock(currentThread, 1)))];
        return Ok(T.Got(1));
      }
      var lock := m.locked.value;
      if lock.owner == currentThread {
        match m.kind {
          case Normal => return Panic(T.NormalMutexMisused);
          case ErrorCheck => return Ok(T.Errno(T.EDEADLK));
          case Recursive =>
            if lock.count >= U32_MAX { return Panic(T.CounterOverflow); }
            mutexes := mutexes[id := m.(locked := Some(T.Lock(lock.owner, lock.count + 1)))];
            return Ok(T.Got(lock.count + 1));
        }
      }
      mutexes := mutexes[id := m.(waitingCount := m.waitingCount + 1)];
      var b := BlockOnMutex(id);
      return if b.Panic? then Panic(b.why) else Ok(T.Got(1));
    }

    method UnlockMutex(id: T.MutexId) returns (r: Status<T.Count>)
      modifies `mutexes
      ensures Matches(T.UnlockMutex(old(View()), id), r)
    {
      if id !in mutexes { return Panic(T.UnknownMutex); }
      var m := mutexes[id];
      if m.locked.None? || m.locked.value.owner != currentThread {
        return if m.kind.Normal? then Panic(T.NormalMutexMisused) else Ok(T.Errno(T.EPERM));
      }
      var lock := m.locked.value;
      if lock.count == 1 {
        mutexes := mutexes[id := m.(locked := None)];
        return Ok(T.Got(0));
      }
      if !m.kind.Recursive? { return Panic(T.CountAboveOne); }
      mutexes := mutexes[id := m.(locked := Some(T.Lock(lock.owner, lock.count - 1)))];
      return Ok(T.Got(lock.count - 1));
    }

    method RelockUnblockedMutex(id: T.MutexId) returns (r: Status<()>)
      requires currentThread < |threads|
      modifies `threads, `mutexes
      ensures Matches(T.RelockMutex(old(View()), id), r)
    {
      var l := LockMutex(id);
      if l.Panic? || l.value.Errno? || id !in mutexes { return Panic(T.RelockFailed); }
      if mutexes[id].waitingCount > 0 {
        mutexes := mutexes[id := mutexes[id].(waitingCount := mutexes[id].waitingCount - 1)];
      }
      return Ok(());
    }

    // -------------------------------------------------------------- semaphores, sleeping, joining

    method SemInit(s: nat, value: u32)
      modifies `sems
      ensures View() == T.SemInit(old(View()), s, value)
    {
      if s !in sems { sems := sems[s := T.Sem(T.AsI32(value), {})]; }
    }

    method SemIncrement(s: nat) returns (r: Status<()>)
      modifies `sems
      ensures Matches(T.SemIncrement(old(View()), s), r)
    {
      if s !in sems { return Panic(T.UnknownSemaphore); }
      sems := sems[s := sems[s].(value := T.WrappingNext(sems[s].value))];
      return Ok(());
    }

    method SemDestroy(s: nat) returns (r: Status<int>)
      modifies `sems
      ensures Matches(T.SemDestroy(old(View()), s), r)
    {
      var known := s in sems;
      sems := sems - {s};
      return Ok(if known then 0 else T.EINVAL);
    }

    method SemDecrement(s: nat, wait: bool) returns (r: Status<bool>)
      requires currentThread < |threads|
      modifies `sems, `threads
      ensures Matches(T.SemDecrement(old(View()), s, wait), r)
    {
      if s !in sems { return Panic(T.UnknownSemaphore); }
      if sems[s].value > 0 {
        sems := sems[s := sems[s].(value := sems[s].value - 1)];
        return Ok(true);
      }
      if !wait { return Ok(false); }
      if threads[currentThread].blockedBy != T.NotBlocked { return Panic(T.AlreadyBlocked); }
      sems := sems[s := sems[s].(waiting := sems[s].waiting + {currentThread})];
      threads := threads[currentThread := threads[currentThread].(blockedBy := T.OnSemaphore(s))];
      return Ok(true);
    }

    /** `join_with_thread`, and `sleep` up to its nested run. */
    method BlockCurrent(b: T.Block) returns (r: Status<()>)
      requires currentThread < |threads|
      modifies `threads
      ensures Matches(T.BlockCurrent(old(View()), b), r)
    {
      if threads[currentThread].blockedBy != T.NotBlocked { return Panic(T.AlreadyBlocked); }
      threads := threads[currentThread := threads[currentThread].(blockedBy := b)];
      return Ok(());
    }

    // -------------------------------------------------------------- condition variables

    method CondWait(c: nat, id: T.MutexId) returns (r: Status<()>)
      requires currentThread < |threads|
      modifies `threads, `mutexes, `conds
      ensures Matches(T.CondWait(old(View()), c, id), r)
    {
      var u := UnlockMutex(id);
      if u.Panic? { return Panic(u.why); }
      if u.value.Errno? { return Panic(T.ConditionMisused); }
      if threads[currentThread].blockedBy != T.NotBlocked { return Panic(T.AlreadyBlocked); }
      if c !in conds { return Panic(T.UnknownCondition); }
      var h := conds[c];
      if h.currMutex != Some(id) && !(h.waking == [] && h.waiting == []) { return Panic(T.ConditionMisused); }
      conds := conds[c := h.(currMutex := Some(id), waiting := h.waiting + [currentThread])];
      threads := threads[currentThread := threads[currentThread].(blockedBy := T.OnCondition(c))];
      return Ok(());
    }

    method CondSignal(c: nat) returns (r: Status<()>)
      modifies `conds
      ensures Matches(T.CondSignal(old(View()), c), r)
    {
      if c !in conds { return Panic(T.UnknownCondition); }
      var h := conds[c];
      if h.waiting != [] {
        conds := conds[c := h.(waiting := h.waiting[1..], waking := h.waking + [h.waiting[0]])];
      }
      return Ok(());
    }

    method CondInit(c: nat) returns (r: Status<()>)
      modifies `conds
      ensures Matches(T.CondInit(old(View()), c), r)
    {
      if c in conds { return Panic(T.ConditionMisused); }
      conds := conds[c := T.Cond([], [], None)];
      return Ok(());
    }

    method CondBroadcast(c: nat) returns (r: Status<()>)
      modifies `conds
      ensures Matches(T.CondBroadcast(old(View()), c), r)
    {
      if c !in conds { return Panic(T.UnknownCondition); }
      conds := conds[c := conds[c].(waiting := [], waking := conds[c].waking + conds[c].waiting)];
      return Ok(());
    }

    method CondDestroy(c: nat) returns (r: Status<()>)
      modifies `conds
      ensures Matches(T.CondDestroy(old(View()), c), r)
    {
      if c !in conds { return Panic(T.UnknownCondition); }
      if conds[c].waiting != [] || conds[c].waking != [] { return Panic(T.ConditionMisused); }
      conds := conds - {c};
      return Ok(());
    }

    // -------------------------------------------------------------- threads

    method SwitchThread(t: T.ThreadId) returns (r: Status<()>)
      requires currentThread < |threads| && t < |threads|
      modifies `threads, `cpu, `currentThread
      ensures Matches(T.SwitchThread(old(View()), t), r)
    {
      if t == currentThread { return Panic(T.SwitchToSelf); }
      if threads[t].context.None? { return Panic(T.ContextMissing); }
      var context := threads[t].context.value;
      threads := threads[t := threads[t].(context := None)];
      cpu, context := context, cpu;
      if threads[currentThread].context.Some? { return Panic(T.ContextPresent); }
      threads := threads[currentThread := threads[currentThread].(context := Some(context))];
      currentThread := t;
      return Ok(());
    }

    method NewThread(start: u32, userData: u32, size: u32, base: u32) returns (r: Status<T.ThreadId>)
      requires currentThread < |threads|
      modifies `threads, `cpu, `currentThread, `heap
      ensures Matches(T.NewThread(old(View()), start, userData, size, base), r)
    {
      if base + size >= TWO32 || (base + size) % 4 != 0 { return Panic(T.StackMisaligned); }
      heap := heap[base := size];
      threads := threads + [T.Thread(true, T.NotBlocked, true, None, false, Some(T.FreshContext), Some(base))];
      var id := |threads| - 1;
      var previous := currentThread;
      var s := SwitchThread(id);
      if s.Panic? { return Panic(s.why); }
      cpu := cpu.(cpsr := T.CPSR_USER_MODE);
      cpu := T.SetReg(cpu, T.SP, base + size);
      cpu := T.SetReg(cpu, 0, userData);
      cpu := T.BranchWithLink(cpu, start, threadExitRoutine);
      s := SwitchThread(previous);
      assert s.Ok?;
      return Ok(id);
    }

    method ThreadExit() returns (r: Status<()>)
      requires currentThread < |threads|
      modifies `threads, `heap
      ensures Matches(T.ThreadExit(old(View())), r)
    {
      var th := threads[currentThread];
      if !th.inStartRoutine { return Panic(T.NonExitingThreadExited); }
      th := th.(returnValue := Some(cpu.regs[0]));
      th := th.(active := false);
      if th.stack.None? { return Panic(T.StackMissing); }
      var stack := th.stack.value;
      th := th.(stack := None);
      threads := threads[currentThread := th];
      if stack !in heap { return Panic(T.StackNotAllocated); }
      heap := heap - {stack};
      return Ok(());
    }

    // -------------------------------------------------------------- one scheduling decision

    method UnblockThread(t: T.ThreadId)
      requires t < |threads|
      modifies `threads
      ensures View() == S.Unblock(old(View()), t)
    {
      threads := threads[t := threads[t].(blockedBy := T.NotBlocked)];
    }

    /** `r` and the object's state are what the arm's specification says. */
    ghost predicate Tries(before: T.Env, spec: S.ArmResult, r: Tried)
      reads this
    {
      match spec
      case Skip => r == Nothing && View() == before
      case NotYet(until) => r == Later(until) && View() == before
      case Wake(e, relock) => r == Woken(relock) && View() == e
      case WakeAndGoOn(e, id) => r == WokenGoOn(id) && View() == e
      case ReturnNow => r == ReturnHere && View() == before
      case ArmPanic(why) => r == Failed(why)
    }

    /** The `match candidate.blocked_by` for thread `i`. */
    method TryCandidate(i: T.ThreadId, initial: T.ThreadId, now: int) returns (r: Tried)
      requires i < |threads|
      modifies `threads, `sems, `conds, `mem
      ensures Tries(old(View()), S.Arm(old(View()), i, initial, now), r)
      ensures |threads| == old(|threads|)
    {
      if !threads[i].active || threads[i].inHostFunction { return Nothing; }
      match threads[i].blockedBy {
        case NotBlocked => return Woken(None);
        case Sleeping(until) =>
          if until > now { return Later(until); }
          UnblockThread(i);
          return Woken(None);
        case OnMutex(id) =>
          if id in mutexes && mutexes[id].locked.Some? { return Nothing; }
          UnblockThread(i);
          return Woken(Some(id));
        case OnSemaphore(s) =>
          if s !in sems { return Failed(T.WaitedSemaphoreMissing); }
          if sems[s].value <= 0 { return Nothing; }
          sems := sems[s := T.Sem(sems[s].value - 1, sems[s].waiting - {currentThread})];
          UnblockThread(i);
          return Woken(None);
        case OnCondition(c) =>
          if c !in conds { return Failed(T.WaitedConditionMissing); }
          if conds[c].currMutex.None? { return Failed(T.ConditionWithoutMutex); }
          var id := conds[c].currMutex.value;
          if conds[c].waking == [] || conds[c].waking[0] != i || (id in mutexes && mutexes[id].locked.Some?) {
            return Nothing;
          }
          conds := conds[c := conds[c].(waking := conds[c].waking[1..])];
          UnblockThread(i);
          return WokenGoOn(id);
        case Joining(j, ptr) =>
          if j >= |threads| { return Failed(T.UnknownThread); }
          if threads[j].active { return Nothing; }
          if ptr != 0 {
            if threads[j].returnValue.None? { return Failed(T.ReturnValueMissing); }
            mem := mem[ptr := threads[j].returnValue.value];
          }
          UnblockThread(i);
          return Woken(None);
        case DeferredReturn => return if i == initial then ReturnHere else Nothing;
      }
    }

    /** `r` and the object's state are what the scan's specification says. */
    ghost predicate Finds(spec: S.ScanResult, r: Sought)
      reads this
    {
      match spec
      case Picked(e, t, relock) => r == Suitable(t, relock) && View() == e
      case ReturnTo(e, t) => r == CanReturn(t) && View() == e
      case Idle(e, next) => r == NoneSuitable(next) && View() == e
      case ScanPanic(why) => r == Broken(why)
    }

    /** The `for` loop over all threads, from the one after the current thread. */
    method FindThread(initial: T.ThreadId, clock: S.Clock) returns (r: Sought)
      requires 0 < |threads|
      modifies `threads, `sems, `conds, `mem
      ensures Finds(S.Scan(old(View()), initial, clock, 0, S.NothingFound), r)
    {
      hide S.Arm;
      var suitable: Option<T.ThreadId>, next: Option<int>, relock: Option<T.MutexId> := None, None, None;
      var k := 0;
      while k < |threads|
        invariant k <= |threads| && |threads| == old(|threads|)
        invariant S.Scan(View(), initial, clock, k, S.Found(suitable, next, relock))
                  == S.Scan(old(View()), initial, clock, 0, S.NothingFound)
        decreases |threads| - k
      {
        ghost var e := View();
        var i := (currentThread + 1 + k) % |threads|;
        assert i == S.Candidate(e, k);
        var tried := TryCandidate(i, initial, clock(k));
        match tried {
          case Nothing =>
          case Later(until) => next := S.Earliest(next, until);
          case Woken(id) =>
            return Suitable(i, if id.Some? then id else relock);
          case WokenGoOn(id) => suitable, relock := Some(i), Some(id);
          case ReturnHere => return CanReturn(i);
          case Failed(why) => return Broken(why);
        }
        k := k + 1;
      }
      return if suitable.Some? then Suitable(suitable.value, relock) else NoneSuitable(next);
    }

    /** How one pass of the scheduling loop ends. */
    ghost predicate Decides(spec: S.Decision, d: Pass)
      reads this
    {
      match spec
      case Resume(e) => d == GoOn && View() == e
      case ReturnToCaller(e) => d == GoBack && View() == e
      case Retry(e) => d == TryAgain && View() == e
      case Stop(why) => d == GiveUp(why)
    }

    method Decide(initial: T.ThreadId, clock: S.Clock) returns (d: Pass)
      requires currentThread < |threads|
      modifies `threads, `sems, `conds, `mem, `cpu, `currentThread, `mutexes
      ensures Decides(S.Decide(old(View()), initial, clock), d)
    {
      S.ScanWakes(View(), initial, clock, 0, S.NothingFound);
      var found := FindThread(initial, clock);
      match found {
        case Suitable(t, relock) =>
          if t != currentThread {
            var s := SwitchThread(t);
            if s.Panic? { return GiveUp(s.why); }
          }
          if relock.Some? {
            var l := RelockUnblockedMutex(relock.value);
            if l.Panic? { return GiveUp(l.why); }
          }
          return GoOn;
        case CanReturn(t) =>
          UnblockThread(t);
          var s := SwitchThread(t);
          return if s.Panic? then GiveUp(s.why) else GoBack;
        case NoneSuitable(next) => return if next.Some? then TryAgain else GiveUp(T.Deadlock);
        case Broken(why) => return GiveUp(why);
      }
    }

    // -------------------------------------------------------------- whole runs

    ghost function At(): R.Machine
      reads this
    {
      R.Machine(View(), frames, phase, born, freed)
    }

    /** The machine has stopped for the same reason, or is in the prescribed state. */
    ghost predicate Becomes(n: R.Machine)
      reads this
    {
      if n.phase.Stopped? then phase == n.phase else At() == n
    }

    /** An operation that stops for reason `why`, or else leads to `n`. */
    ghost predicate Performs(n: R.Machine, why: Option<T.Panic>)
      reads this
    {
      match why
      case Some(w) => n.phase == R.Stopped(w)
      case None => At() == n
    }

    /** The object is on its way to `goal` through the events in `script`, or has stopped where `goal` does. */
    ghost predicate Continues(goal: R.Machine)
      reads this
    {
      if phase.Stopped? then script == [] && phase == goal.phase else OnTrack(goal, At(), script)
    }

    /** The same, at the point where `run_inner` is about to return. */
    ghost predicate Leaves(goal: R.Machine)
      reads this
    {
      I.ReadyToLeave(At()) && OnTrack(goal, R.Leave(At()), script)
    }

    /** The top activation was entered on `initial`, as the root or not, and calls no host function at present. */
    ghost predicate InFrame(initial: T.ThreadId, root: bool)
      reads this
    {
      frames != [] && R.Top(frames).initial == initial && R.Top(frames).root == root && R.Top(frames).host.None?
    }

    /** `x` tells the caller truly why the activation ended. */
    ghost predicate Ends(x: Exit)
      reads this
    {
      (x.Stopped? <==> phase.Stopped?) && (x.OutOfScript? ==> script == [])
    }

    method MutexCall(event: R.Event) returns (why: Option<T.Panic>)
      requires currentThread < |threads| && R.IsMutexEvent(event)
      modifies `threads, `mutexes, `mutexCount
      ensures Performs(R.HostStep(old(At()), event), why)
    {
      hide T.InitMutex, T.LockMutex, T.UnlockMutex, T.DestroyMutex;
      match event {
        case MutexInit(kind) => var r := InitMutex(kind); return Why(r);
        case MutexLock(id) => var r := LockMutex(id); return Why(r);
        case MutexUnlock(id) => var r := UnlockMutex(id); return Why(r);
        case MutexDestroy(id) => var r := DestroyMutex(id); return Why(r);
      }
    }

    method WaitCall(event: R.Event) returns (why: Option<T.Panic>)
      requires currentThread < |threads| && R.IsWaitEvent(event)
      modifies `threads, `sems
      ensures Performs(R.HostStep(old(At()), event), why)
    {
      hide T.SemInit, T.SemDestroy, T.SemIncrement, T.SemDecrement, T.BlockCurrent;
      match event {
        case SemaphoreInit(s, value) => SemInit(s, value); return None;
        case SemaphoreDestroy(s) => var r := SemDestroy(s); return Why(r);
        case SemaphorePost(s) => var r := SemIncrement(s); return Why(r);
        case SemaphoreWait(s, wait) => var r := SemDecrement(s, wait); return Why(r);
        case Join(j, ptr) => var r := BlockCurrent(T.Joining(j, ptr)); return Why(r);
        case Sleep(until) => var r := BlockCurrent(T.Sleeping(until)); return Why(r);
      }
    }

    method ConditionCall(event: R.Event) returns (why: Option<T.Panic>)
      requires currentThread < |threads| && R.IsConditionEvent(event)
      modifies `threads, `mutexes, `conds
      ensures Performs(R.HostStep(old(At()), event), why)
    {
      hide T.CondInit, T.CondWait, T.CondSignal, T.CondBroadcast, T.CondDestroy;
      match event {
        case ConditionInit(c) => var r := CondInit(c); return Why(r);
        case ConditionWait(c, id) => var r := CondWait(c, id); return Why(r);
        case ConditionSignal(c) => var r := CondSignal(c); return Why(r);
        case ConditionBroadcast(c) => var r := CondBroadcast(c); return Why(r);
        case ConditionDestroy(c) => var r := CondDestroy(c); return Why(r);
      }
    }

    method ThreadCall(event: R.Event) returns (why: Option<T.Panic>)
      requires currentThread < |threads| && R.IsThreadEvent(event)
      modifies `threads, `cpu, `currentThread, `heap, `born
      ensures Performs(R.HostStep(old(At()), event), why)
    {
      hide T.NewThread, T.LockMutex, T.UnlockMutex, T.InitMutex, T.DestroyMutex, T.SemDecrement, T.SemInit,
        T.SemIncrement, T.CondWait, T.CondSignal, T.CondBroadcast, T.BlockCurrent, R.RunCalled, R.HostReturned;
      match event {
        case Create(start, userData, size, base) =>
          born := born + [base];
          var r := NewThread(start, userData, size, base);
          return Why(r);
        case Alloc(base, size) => heap := heap[base := size]; return None;
        case Free(base) => heap := heap - {base}; return None;
        case HostCpu(c) => cpu := c; return None;
      }
    }

    /** One action of the running host function, other than calling guest code. */
    method HostAction(event: R.Event) returns (why: Option<T.Panic>)
      requires currentThread < |threads|
      requires R.IsMutexEvent(event) || R.IsWaitEvent(event) || R.IsConditionEvent(event) || R.IsThreadEvent(event)
      modifies `threads, `mutexes, `mutexCount, `sems, `conds, `cpu, `currentThread, `heap, `born
      ensures Performs(R.HostStep(old(At()), event), why)
    {
      if R.IsMutexEvent(event) {
        why := MutexCall(event);
      } else if R.IsWaitEvent(event) {
        why := WaitCall(event);
      } else if R.IsConditionEvent(event) {
        why := ConditionCall(event);
      } else {
        why := ThreadCall(event);
      }
    }

    /** The code of a host function, up to but not including its return; or what precedes the root `run_inner`. */
    method HostCode(ghost goal: R.Machine) returns (x: Exit)
      requires phase.Host? && OnTrack(goal, At(), script)
      modifies this
      ensures Continues(goal) && Ends(x) && |script| <= old(|script|) && !x.Yielded?
      ensures x.Returned? ==>
                phase.Host? && frames == old(frames) && script != [] && (script[0].HostReturn? || script[0].RunRoot?)
      decreases |script|, 0
    {
      hide OnTrack, R.HostStep, R.Step, R.Enabled, I.Inv, I.Good;
      while script != [] && !script[0].HostReturn? && !script[0].RunRoot?
        invariant OnTrack(goal, At(), script) && phase.Host? && frames == old(frames) && |script| <= old(|script|)
        decreases |script|
      {
        var event := script[0];
        Basics(goal, At(), script);
        Next(goal, At(), script);
        script := script[1..];
        if event.RunCall? {
          CallsRun(At());
          x := RunCall(goal);
          if !x.Returned? { return x; }
        } else {
          StaysHost(At(), event);
          var why := HostAction(event);
          if why.Some? {
            phase := R.Stopped(why.value);
            return Stopped;
          }
        }
      }
      return if script == [] then OutOfScript else Returned;
    }

    /** `run_call`: its assertion that the thread is the caller's again never fails. */
    method RunCall(ghost goal: R.Machine) returns (x: Exit)
      requires currentThread < |threads| && phase.Host? && I.Inv(At()) && OnTrack(goal, R.RunCalled(At()), script)
      modifies this
      ensures Continues(goal) && Ends(x) && |script| <= old(|script|) && !x.Yielded?
      ensures x.Returned? ==> phase.Host? && frames == old(frames) && currentThread == old(currentThread)
      decreases |script|, 4
    {
      hide OnTrack, I.ReadyToLeave, I.Inv;
      Basics(goal, R.RunCalled(At()), script);
      I.EnterKeeps(At(), false);
      var wasInHostFunction := threads[currentThread].inHostFunction;
      var oldThread := currentThread;
      SetHostFlag(false);
      x := RunInner(goal, false, wasInHostFunction);
      if !x.Returned? { return x; }
      I.LeaveKeeps(At());
      assert currentThread == oldThread;
      SetHostFlag(wasInHostFunction);
      frames, phase := R.Pop(frames), R.Host;
    }

    method SetHostFlag(flag: bool)
      requires currentThread < |threads|
      modifies `threads
      ensures View() == R.SetHostFlag(old(View()), currentThread, flag)
    {
      threads := threads[currentThread := threads[currentThread].(inHostFunction := flag)];
    }

    /**
     `run_inner`: it is entered on an active thread without a stored context, performs exactly the
     events in `script`, and returns only from the frame it pushed, on the thread it was entered on.
     */
    method RunInner(ghost goal: R.Machine, root: bool, ghost callerFlag: bool) returns (x: Exit)
      requires currentThread < |threads| && OnTrack(goal, R.Enter(At(), root, callerFlag), script)
      modifies this
      ensures if x.Returned? then Leaves(goal) else Continues(goal)
      ensures Ends(x) && |script| <= old(|script|) && !x.Yielded?
      ensures x.Returned? ==> frames == old(frames) + [R.Frame(old(currentThread), root, callerFlag, None)]
      decreases |script|, 3
    {
      hide OnTrack, I.ReadyToLeave, I.Inv, R.Enter;
      ghost var m := R.Enter(At(), root, callerFlag);
      Basics(goal, m, script);
      EnterIs(At(), root, callerFlag);
      var initialThread := currentThread;
      assert threads[initialThread].active;
      assert threads[initialThread].context.None?;
      frames, phase := m.frames, m.phase;
      while true
        invariant currentThread < |threads| && OnTrack(goal, At(), script)
        invariant phase == R.PhaseFor(View()) && frames == m.frames && |script| <= old(|script|)
        decreases |script|
      {
        if threads[currentThread].blockedBy.NotBlocked? {
          x := TimeSlice(goal, initialThread, root);
          if !x.Yielded? { return x; }
        }
        x := FindWork(goal, initialThread);
        if !x.Yielded? { return x; }
        Basics(goal, At(), script);
      }
    }

    /** The current thread runs until it yields, returns to the host, or its time is over. */
    method TimeSlice(ghost goal: R.Machine, initialThread: T.ThreadId, root: bool) returns (x: Exit)
      requires OnTrack(goal, At(), script) && phase.Guest? && InFrame(initialThread, root)
      modifies this
      ensures if x.Returned? then Leaves(goal) else Continues(goal)
      ensures Ends(x) && |script| <= old(|script|)
      ensures x.Returned? || x.Yielded? ==> frames == old(frames)
      ensures x.Yielded? ==> phase.Deciding?
      decreases |script|, 2
    {
      hide OnTrack, I.ReadyToLeave, I.Inv, I.Good, R.Step, R.ReturnedToHost, R.Exited, R.HostCalled, R.Enabled;
      while script != []
        invariant OnTrack(goal, At(), script) && phase.Guest? && frames == old(frames) && |script| <= old(|script|)
        decreases |script|
      {
        var event := script[0];
        Basics(goal, At(), script);
        Next(goal, At(), script);
        GuestStepIs(At(), event);
        script := script[1..];
        match event {
          case Ran(c) => cpu := c;
          case TimeSliceOver =>
            phase := R.Deciding;
            return Yielded;
          case CallHost =>
            x := CallFromGuest(goal);
            if !x.Returned? { return x; }
            if !threads[currentThread].blockedBy.NotBlocked? { return Yielded; }
          case SvcReturnToHost =>
            x := ReturnToHost(goal, initialThread, root);
            return x;
          case SvcThreadExit =>
            x := ExitThread();
            return x;
        }
      }
      return OutOfScript;
    }

    /** A host function called by the guest; the thread's flag is set meanwhile and restored on the same thread. */
    method CallFromGuest(ghost goal: R.Machine) returns (x: Exit)
      requires I.Inv(At()) && phase.Guest? && OnTrack(goal, R.HostCalled(At()), script)
      modifies this
      ensures Continues(goal) && Ends(x) && |script| <= old(|script|) && !x.Yielded?
      ensures x.Returned? ==> currentThread < |threads| && phase == R.PhaseFor(View()) && frames == old(frames)
      decreases |script|, 1
    {
      hide OnTrack, I.Inv, I.Good, R.Step, R.Enabled;
      GuestBasics(At());
      var wasInHostFunction := threads[currentThread].inHostFunction;
      ghost var before := frames;
      ghost var called := R.HostCall(currentThread, wasInHostFunction);
      frames, phase := R.SetTopHost(frames, Some(called)), R.Host;
      SetHostFlag(true);
      x := HostCode(goal);
      if !x.Returned? { return x; }
      assert frames == R.SetTopHost(before, Some(called));
      Basics(goal, At(), script);
      Next(goal, At(), script);
      HostReturnIs(At(), script[0]);
      script := script[1..];
      SetHostFlag(wasInHostFunction);
      frames, phase := R.SetTopHost(frames, None), R.PhaseFor(View());
      assert frames == before;
    }

    /** SVC_RETURN_TO_HOST, whose assertion that this is not the root activation never fails. */
    method ReturnToHost(ghost goal: R.Machine, initialThread: T.ThreadId, root: bool) returns (x: Exit)
      requires I.Inv(At()) && phase.Guest? && InFrame(initialThread, root)
      requires R.HasCall(frames, currentThread) && OnTrack(goal, R.ReturnedToHost(At()), script)
      modifies this
      ensures if x.Returned? then Leaves(goal) else x.Yielded? && phase.Deciding? && Continues(goal)
      ensures script == old(script) && frames == old(frames) && !phase.Stopped?
    {
      hide OnTrack;
      I.CallsAreNotRoot(At(), currentThread);
      assert !root;
      if currentThread == initialThread {
        assert I.ThreadOk(At(), currentThread);
        return Returned;
      }
      threads := threads[currentThread := threads[currentThread].(blockedBy := T.DeferredReturn)];
      phase := R.Deciding;
      return Yielded;
    }

    /** SVC_THREAD_EXIT. */
    method ExitThread() returns (x: Exit)
      requires currentThread < |threads| && !phase.Stopped?
      modifies this
      ensures Becomes(R.Exited(old(At()))) && script == old(script) && frames == old(frames)
      ensures if x.Stopped? then phase.Stopped? else x.Yielded? && phase.Deciding?
    {
      ghost var freeing := (currentThread, threads[currentThread].stack);
      var e := ThreadExit();
      if e.Panic? {
        phase := R.Stopped(e.why);
        return Stopped;
      }
      phase, freed := R.Deciding, freed + [(freeing.0, freeing.1.value)];
      return Yielded;
    }

    /** One pass of the scheduling loop. */
    method OnePass(ghost goal: R.Machine, initialThread: T.ThreadId) returns (pass: Pass)
      requires OnTrack(goal, At(), script) && script != []
      requires phase.Deciding? && frames != [] && R.Top(frames).initial == initialThread
      modifies this
      ensures if pass.GoBack? then Leaves(goal) else Continues(goal)
      ensures if pass.GiveUp? then phase.Stopped? else frames == old(frames) && !phase.Stopped?
      ensures pass.TryAgain? ==> phase.Deciding?
      ensures pass.GoOn? ==> currentThread < |threads| && phase == R.PhaseFor(View())
      ensures script == old(script)[1..]
    {
      hide OnTrack, S.Decide, I.Inv, I.ReadyToLeave, I.Good, R.Step, R.Leave, R.Enabled;
      Basics(goal, At(), script);
      Next(goal, At(), script);
      ScheduleIs(At(), script[0]);
      var clock := script[0].clock;
      ReturnIsReady(At(), clock);
      script := script[1..];
      pass := Decide(initialThread, clock);
      if pass.GoOn? { phase := R.PhaseFor(View()); }
      if pass.GiveUp? { phase := R.Stopped(pass.why); }
    }

    /** The scheduling loop. */
    method FindWork(ghost goal: R.Machine, initialThread: T.ThreadId) returns (x: Exit)
      requires OnTrack(goal, At(), script) && phase.Deciding? && frames != [] && R.Top(frames).initial == initialThread
      modifies this
      ensures if x.Returned? then Leaves(goal) else Continues(goal)
      ensures Ends(x) && |script| <= old(|script|)
      ensures x.Returned? || x.Yielded? ==> frames == old(frames)
      ensures x.Yielded? ==> currentThread < |threads| && phase == R.PhaseFor(View()) && |script| < old(|script|)
    {
      hide OnTrack, I.ReadyToLeave;
      while script != []
        invariant OnTrack(goal, At(), script) && phase.Deciding? && frames == old(frames) && |script| <= old(|script|)
        decreases |script|
      {
        var pass := OnePass(goal, initialThread);
        match pass {
          case GoOn => return Yielded;
          case GoBack => return Returned;
          case TryAgain =>
          case GiveUp(_) => return Stopped;
        }
      }
      return OutOfScript;
    }

    /** The whole emulation: host code before the app starts, then the root activation, which never returns. */
    method Emulate() returns (x: Exit)
      requires I.Inv(At()) && I.Legal(At(), script) && phase.Host? && frames == []
      modifies this
      ensures var goal := I.Run(old(At()), old(script));
              if x.Stopped? then phase == goal.phase else x.OutOfScript? && script == [] && At() == goal
      ensures x.Stopped? ==> phase.Stopped? && (!T.Internal(phase.why) || I.TablePanic(phase.why))
    {
      I.RunKeeps(At(), script);
      hide OnTrack, I.Inv, I.ReadyToLeave, I.Legal, I.Run, R.Step, R.Enter;
      ghost var goal := I.Run(At(), script);
      StartsOnTrack(At(), script);
      x := HostCode(goal);
      if x.OutOfScript? { EndsOnTrack(goal, At()); }
      if !x.Returned? { return x; }
      Basics(goal, At(), script);
      Next(goal, At(), script);
      script := script[1..];
      x := RunRoot(goal);
      if x.OutOfScript? { EndsOnTrack(goal, At()); }
    }

    /** The root activation of `run_inner` never returns. */
    method RunRoot(ghost goal: R.Machine) returns (x: Exit)
      requires currentThread < |threads| && OnTrack(goal, R.Enter(At(), true, false), script)
      modifies this
      ensures !x.Returned? && Continues(goal) && Ends(x)
      ensures !x.Yielded?
    {
      hide OnTrack, R.Enter;
      x := RunInner(goal, true, false);
      if x.Returned? { RootStays(At()); }
    }
  }
}
