/**
 What every reachable machine satisfies. Condition waits are allowed throughout this file.
 */
module RunInvariant {
  import opened Prelude
  import opened Threads
  import opened Scheduler
  import opened Runs

  /** Exactly the current thread has no stored context; only thread 0 is not a started thread. */
  predicate ContextOk(e: Env, t: ThreadId)
    requires t < |e.threads|
  {
    && (e.threads[t].context.None? <==> t == e.current)
    && (e.threads[t].inStartRoutine <==> t != 0)
  }

  /** A finished thread has a return value, no stack, waits for nothing and owns no frame. */
  ghost predicate LifetimeOk(m: Machine, t: ThreadId)
    requires t < |m.env.threads|
  {
    var th := m.env.threads[t];
    if th.active then th.stack.Some?
    else t != 0 && th.returnValue.Some? && th.stack.None? && th.blockedBy.NotBlocked? && !HasFrame(m.frames, t)
  }

  /** The flag is set on a thread exactly while that thread itself is executing a called host function. */
  predicate FlagOk(m: Machine, t: ThreadId)
    requires t < |m.env.threads|
  {
    m.env.threads[t].inHostFunction <==> (m.phase.Host? && t == m.env.current && m.frames != [])
  }

  /** A deferred thread is waiting for its own frame, and is not the one that runs. */
  ghost predicate DeferralOk(m: Machine, t: ThreadId)
    requires t < |m.env.threads|
  {
    m.env.threads[t].blockedBy.DeferredReturn? ==>
      && HasCall(m.frames, t)
      && (t == m.env.current ==> m.phase.Deciding? && m.frames != [] && Top(m.frames).initial != t)
  }

  /** What a blocked thread waits for exists; whether semaphores and mutexes do is up to the guest (Needs.dfy). */
  predicate WaitOk(e: Env, t: ThreadId)
    requires t < |e.threads|
  {
    match e.threads[t].blockedBy
    case OnCondition(c) => Queued(e, c, t)
    case Joining(j, _) => j < |e.threads|
    case _ => true
  }

  ghost predicate ThreadOk(m: Machine, t: ThreadId)
    requires t < |m.env.threads|
  {
    ContextOk(m.env, t) && LifetimeOk(m, t) && FlagOk(m, t) && DeferralOk(m, t) && WaitOk(m.env, t)
  }

  ghost predicate ThreadsOk(m: Machine) {
    && m.env.current < |m.env.threads|
    && (forall t :: 0 <= t < |m.env.threads| ==> ThreadOk(m, t))
  }

  /**
   Frame k: only the bottom one can be the root; `run_call` found the flag set unless it was called
   from outside any guest code; a frame below another has a host function in progress, called on
   the thread that frame above was entered with and found with the flag clear.
   */
  predicate FrameOk(frames: seq<Frame>, k: nat)
    requires k < |frames|
  {
    && (frames[k].root ==> k == 0)
    && (k == 0 ==> frames[k].initial == 0 && !frames[k].callerFlag)
    && (k > 0 ==> frames[k].callerFlag)
    && (k + 1 < |frames| ==> frames[k].host == Some(HostCall(frames[k + 1].initial, false)))
  }

  predicate FramesOk(frames: seq<Frame>) {
    forall k :: 0 <= k < |frames| ==> FrameOk(frames, k)
  }

  predicate PhaseOk(m: Machine)
    requires m.env.current < |m.env.threads|
  {
    var th := m.env.threads[m.env.current];
    match m.phase
    case Host =>
      th.active && (if m.frames == [] then m.env.current == 0
        else Top(m.frames).host == Some(HostCall(m.env.current, false)))
    case Guest => m.frames != [] && Top(m.frames).host.None? && th.active && th.blockedBy.NotBlocked?
    case Deciding => m.frames != [] && Top(m.frames).host.None?
    case Stopped(_) => false
  }

  /**
   Every live secondary thread owns a live chunk of its own, the one it was born with; finished ones
   were freed once.
   */
  ghost predicate StacksOk(m: Machine) {
    var ts := m.env.threads;
    && |m.born| == |ts|
    && (forall b :: b in m.env.heap ==> m.env.heap[b] > 0)
    && (forall t :: 0 < t < |ts| && ts[t].active ==> ts[t].stack == Some(m.born[t]) && m.born[t] in m.env.heap)
    && (forall t, u :: 0 < t < u < |ts| && ts[t].active && ts[u].active ==> m.born[t] != m.born[u])
    && (forall t :: 0 < t < |ts| ==> (!ts[t].active <==> (t, m.born[t]) in m.freed))
    && (forall k :: 0 <= k < |m.freed| ==> 0 < m.freed[k].0 < |ts| && m.freed[k].1 == m.born[m.freed[k].0])
    && (forall j, k :: 0 <= j < k < |m.freed| ==> m.freed[j].0 != m.freed[k].0)
  }

  ghost predicate Inv(m: Machine) {
    ThreadsOk(m) && FramesOk(m.frames) && PhaseOk(m) && StacksOk(m)
  }

  /** The two unwraps that depend on the mutex table; MutexRuns.dfy and Needs.dfy deal with them. */
  predicate MutexPanic(p: Panic) { p.RelockFailed? || p.CountAboveOne? }

  /** These, and the one on the semaphore that a blocked thread waits for. */
  predicate TablePanic(p: Panic) { MutexPanic(p) || p.WaitedSemaphoreMissing? }

  ghost predicate Good(m: Machine) {
    if m.phase.Stopped? then !Internal(m.phase.why) || TablePanic(m.phase.why) else Inv(m)
  }

  lemma SameStacks(m: Machine, n: Machine)
    requires StacksOk(m) && n.born == m.born && n.freed == m.freed && n.env.heap == m.env.heap
    requires |n.env.threads| == |m.env.threads|
    requires forall t :: 0 <= t < |m.env.threads| ==>
               n.env.threads[t].active == m.env.threads[t].active && n.env.threads[t].stack == m.env.threads[t].stack
    ensures StacksOk(n)
  {
  }

  // ---------------------------------------------------------------- host operations

  /** `b` differs from `a` only in tables and in what the current thread waits for. */
  ghost predicate HostOp(a: Env, b: Env) {
    && a.current < |a.threads| && |b.threads| == |a.threads|
    && b == a.(threads := b.threads, mutexes := b.mutexes, mutexCount := b.mutexCount, sems := b.sems, conds := b.conds,
       cpu := b.cpu)
    && (forall t :: 0 <= t < |a.threads| && t != a.current ==> b.threads[t] == a.threads[t])
    && b.threads[a.current] == a.threads[a.current].(blockedBy := b.threads[a.current].blockedBy)
    && (forall c: nat, t: ThreadId :: t < |b.threads| && Queued(a, c, t) && b.threads[t].blockedBy == OnCondition(c) ==>
       Queued(b, c, t))
    && (b.threads[a.current].blockedBy != a.threads[a.current].blockedBy ==>
          !b.threads[a.current].blockedBy.DeferredReturn? && WaitOk(b, a.current))
  }

  lemma HostOpKeeps(m: Machine, b: Env)
    requires Inv(m) && m.phase.Host? && HostOp(m.env, b)
    ensures Inv(m.(env := b))
  {
    var n := m.(env := b);
    var c := m.env.current;
    forall t | 0 <= t < |b.threads| ensures ThreadOk(n, t)
    {
      assert ThreadOk(m, t);
    }
  }

  lemma SameThreads(m: Machine, b: Env)
    requires Inv(m) && m.phase.Host?
    requires b == m.env.(mutexes := b.mutexes, mutexCount := b.mutexCount, sems := b.sems, conds := b.conds,
             cpu := b.cpu)
    requires forall c: nat, t: ThreadId :: Queued(m.env, c, t) ==> Queued(b, c, t)
    ensures Inv(m.(env := b))
  {
    HostOpKeeps(m, b);
  }

  lemma SetsBlock(m: Machine, b: Env, block: Block)
    requires Inv(m) && m.phase.Host? && m.env.threads[m.env.current].blockedBy.NotBlocked? && !block.DeferredReturn?
    requires b.threads == m.env.threads
    requires b == m.env.(mutexes := b.mutexes, mutexCount := b.mutexCount, sems := b.sems, conds := b.conds,
             cpu := b.cpu)
    requires forall c: nat, t: ThreadId :: Queued(m.env, c, t) ==> Queued(b, c, t)
    requires WaitOk(SetBlock(b, b.current, block), b.current)
    ensures Inv(m.(env := SetBlock(b, b.current, block)))
  {
    HostOpKeeps(m, SetBlock(b, b.current, block));
  }

  lemma InitMutexKeeps(m: Machine, kind: MutexType)
    requires Inv(m) && m.phase.Host?
    ensures Good(Step(m, MutexInit(kind)))
  {
    if InitMutex(m.env, kind).Fine? { SameThreads(m, InitMutex(m.env, kind).env); }
  }

  lemma UnlockKeeps(m: Machine, id: MutexId)
    requires Inv(m) && m.phase.Host?
    ensures Good(Step(m, MutexUnlock(id)))
  {
    if UnlockMutex(m.env, id).Fine? { SameThreads(m, UnlockMutex(m.env, id).env); }
  }

  lemma DestroyMutexKeeps(m: Machine, id: MutexId)
    requires Inv(m) && m.phase.Host?
    ensures Good(Step(m, MutexDestroy(id)))
  {
    if DestroyMutex(m.env, id).Fine? { SameThreads(m, DestroyMutex(m.env, id).env); }
  }

  /** Locking either changes the mutex table alone, or adds the current thread to the waiters. */
  lemma LockIs(e: Env, id: MutexId)
    requires e.current < |e.threads| && LockMutex(e, id).Fine?
    ensures var e1 := LockMutex(e, id).env;
            || e1 == e.(mutexes := e1.mutexes)
            || (e.threads[e.current].blockedBy.NotBlocked? &&
               e1 == SetBlock(e.(mutexes := e1.mutexes), e.current, OnMutex(id)))
  {
  }

  lemma LockKeeps(m: Machine, id: MutexId)
    requires Inv(m) && m.phase.Host?
    ensures Good(Step(m, MutexLock(id)))
  {
    if LockMutex(m.env, id).Fine? {
      LockIs(m.env, id);
      var e1 := LockMutex(m.env, id).env;
      var taken := m.env.(mutexes := e1.mutexes);
      if e1 == taken { SameThreads(m, e1); } else { SetsBlock(m, taken, OnMutex(id)); }
    }
  }

  lemma SemInitKeeps(m: Machine, s: nat, value: u32)
    requires Inv(m) && m.phase.Host?
    ensures Good(Step(m, SemaphoreInit(s, value)))
  {
    SameThreads(m, SemInit(m.env, s, value));
  }

  lemma SemDestroyKeeps(m: Machine, s: nat)
    requires Inv(m) && m.phase.Host?
    ensures Good(Step(m, SemaphoreDestroy(s)))
  {
    SameThreads(m, SemDestroy(m.env, s).env);
  }

  lemma SemPostKeeps(m: Machine, s: nat)
    requires Inv(m) && m.phase.Host?
    ensures Good(Step(m, SemaphorePost(s)))
  {
    if SemIncrement(m.env, s).Fine? { SameThreads(m, SemIncrement(m.env, s).env); }
  }

  lemma SemDecrementIs(e: Env, s: nat, wait: bool)
    requires e.current < |e.threads| && SemDecrement(e, s, wait).Fine?
    ensures var e1 := SemDecrement(e, s, wait).env;
            && e.sems.Keys <= e1.sems.Keys && s in e1.sems
            && (e1 == e.(sems := e1.sems) ||
                (e.threads[e.current].blockedBy.NotBlocked? &&
                  e1 == SetBlock(e.(sems := e1.sems), e.current, OnSemaphore(s))))
  {
  }

  lemma {:induction false} SemaphoreWaitKeeps(m: Machine, s: nat, wait: bool)
    requires Inv(m) && m.phase.Host?
    ensures Good(Step(m, SemaphoreWait(s, wait)))
  {
    if SemDecrement(m.env, s, wait).Fine? {
      SemDecrementIs(m.env, s, wait);
      var e1 := SemDecrement(m.env, s, wait).env;
      var taken := m.env.(sems := e1.sems);
      if e1 == taken { SameThreads(m, e1); } else { SetsBlock(m, taken, OnSemaphore(s)); }
    }
  }

  lemma JoinKeeps(m: Machine, j: ThreadId, ptr: u32)
    requires Inv(m) && m.phase.Host? && j < |m.env.threads|
    ensures Good(Step(m, Join(j, ptr)))
  {
    if BlockCurrent(m.env, Joining(j, ptr)).Fine? { SetsBlock(m, m.env, Joining(j, ptr)); }
  }

  lemma SleepKeeps(m: Machine, until: int)
    requires Inv(m) && m.phase.Host?
    ensures Good(Step(m, Sleep(until)))
  {
    if BlockCurrent(m.env, Sleeping(until)).Fine? { SetsBlock(m, m.env, Sleeping(until)); }
  }

  lemma CondInitKeeps(m: Machine, c: nat)
    requires Inv(m) && m.phase.Host?
    ensures Good(Step(m, ConditionInit(c)))
  {
    if CondInit(m.env, c).Fine? { SameThreads(m, CondInit(m.env, c).env); }
  }

  lemma CondBroadcastKeeps(m: Machine, c: nat)
    requires Inv(m) && m.phase.Host?
    ensures Good(Step(m, ConditionBroadcast(c)))
  {
    if CondBroadcast(m.env, c).Fine? { SameThreads(m, CondBroadcast(m.env, c).env); }
  }

  lemma CondDestroyKeeps(m: Machine, c: nat)
    requires Inv(m) && m.phase.Host?
    ensures Good(Step(m, ConditionDestroy(c)))
  {
    if CondDestroy(m.env, c).Fine? { SameThreads(m, CondDestroy(m.env, c).env); }
  }

  lemma ConditionSignalKeeps(m: Machine, c: nat)
    requires Inv(m) && m.phase.Host?
    ensures Good(Step(m, ConditionSignal(c)))
  {
    if CondSignal(m.env, c).Fine? {
      var e1 := CondSignal(m.env, c).env;
      forall d: nat, t: ThreadId | Queued(m.env, d, t) ensures Queued(e1, d, t) {
        var w := m.env.conds[c].waiting;
        if w != [] { assert w == [w[0]] + w[1..]; }
      }
      SameThreads(m, e1);
    }
  }

  lemma CondWaitIs(e: Env, c: nat, id: MutexId)
    requires e.current < |e.threads| && CondWait(e, c, id).Fine?
    ensures var e1 := CondWait(e, c, id).env;
            var b := e.(mutexes := e1.mutexes, conds := e1.conds);
            && e.threads[e.current].blockedBy.NotBlocked?
            && e1 == SetBlock(b, e.current, OnCondition(c))
            && Queued(b, c, e.current)
            && (forall d: nat, t: ThreadId :: Queued(e, d, t) ==> Queued(b, d, t))
  {
  }

  lemma ConditionWaitKeeps(m: Machine, c: nat, id: MutexId)
    requires Inv(m) && m.phase.Host?
    ensures Good(Step(m, ConditionWait(c, id)))
  {
    if CondWait(m.env, c, id).Fine? {
      CondWaitIs(m.env, c, id);
      var e1 := CondWait(m.env, c, id).env;
      SetsBlock(m, m.env.(mutexes := e1.mutexes, conds := e1.conds), OnCondition(c));
    }
  }

  lemma HeapKeeps(m: Machine, heap: map<u32, u32>)
    requires Inv(m) && m.phase.Host?
    requires forall b :: b in heap ==> heap[b] > 0
    requires forall t :: 0 < t < |m.env.threads| && m.env.threads[t].active ==> m.born[t] in heap
    ensures Inv(m.(env := m.env.(heap := heap)))
  {
    var n := m.(env := m.env.(heap := heap));
    forall t | 0 <= t < |n.env.threads| ensures ThreadOk(n, t) { assert ThreadOk(m, t); }
  }

  // ---------------------------------------------------------------- creating and finishing threads

  /** Creating a thread switches to it and back: the others, and the CPU, are as before. */
  lemma NewThreadIs(e: Env, start: u32, userData: u32, size: u32, base: u32)
    requires e.current < |e.threads| && e.threads[e.current].context.None?
    requires base + size < TWO32 && (base + size) % 4 == 0
    ensures NewThread(e, start, userData, size, base) ==
            Fine(e.(heap := e.heap[base := size],
                    threads := e.threads + [Thread(true, NotBlocked, true, None, false,
                                                   Some(StartCpu(start, userData, base + size, e.threadExitRoutine)),
                                                     Some(base))]),
                 |e.threads|)
  {
    var t := |e.threads|;
    var started := Thread(true, NotBlocked, true, None, false, Some(FreshContext), Some(base));
    var e1 := e.(heap := e.heap[base := size], threads := e.threads + [started]);
    var e2 := SwitchThread(e1, t).env;
    var ready := StartCpu(start, userData, base + size, e.threadExitRoutine);
    assert e2.cpu == FreshContext;
    var e3 := SwitchThread(e2.(cpu := ready), e.current).env;
    assert e3.threads == e.threads + [started.(context := Some(ready))];
    assert e3.cpu == e.cpu;
  }

  lemma FreshIsNew(heap: map<u32, u32>, base: u32, size: u32)
    requires FreshChunk(heap, base, size) && forall b :: b in heap ==> heap[b] > 0
    ensures base !in heap && size > 0
  {
  }

  lemma StacksAfterCreate(m: Machine, n: Machine, base: u32, size: u32, started: Thread)
    requires StacksOk(m) && FreshChunk(m.env.heap, base, size) && 0 < |m.env.threads|
    requires n == m.(env := n.env, born := m.born + [base])
    requires n.env == m.env.(threads := m.env.threads + [started], heap := m.env.heap[base := size])
    requires started.active && started.stack == Some(base)
    ensures StacksOk(n)
  {
    hide FreshChunk;
    var ts := m.env.threads;
    FreshIsNew(m.env.heap, base, size);
    assert forall t :: 0 < t < |ts| && ts[t].active ==> m.born[t] in m.env.heap && m.born[t] != base;
    assert forall t :: 0 <= t < |ts| ==> n.born[t] == m.born[t] && n.env.threads[t] == ts[t];
  }

  lemma {:induction false} CreateKeeps(m: Machine, start: u32, userData: u32, size: u32, base: u32)
    requires Inv(m) && m.phase.Host? && FreshChunk(m.env.heap, base, size)
    ensures Good(Step(m, Create(start, userData, size, base)))
  {
    if base + size < TWO32 && (base + size) % 4 == 0 {
      assert ThreadOk(m, m.env.current);
      NewThreadIs(m.env, start, userData, size, base);
      var started := Thread(true, NotBlocked, true, None, false,
                            Some(StartCpu(start, userData, base + size, m.env.threadExitRoutine)), Some(base));
      var n := m.(born := m.born + [base],
                  env := m.env.(threads := m.env.threads + [started], heap := m.env.heap[base := size]));
      StacksAfterCreate(m, n, base, size, started);
      forall t | 0 <= t < |n.env.threads| ensures ThreadOk(n, t) {
        if t < |m.env.threads| { assert ThreadOk(m, t); }
      }
      assert Step(m, Create(start, userData, size, base)) == n;
    }
  }

  lemma ExitKeeps(m: Machine)
    requires Inv(m) && m.phase.Guest? && !HasCall(m.frames, m.env.current)
    ensures Good(Exited(m))
  {
    var c := m.env.current;
    var n := Exited(m);
    assert ThreadOk(m, c);
    if !n.phase.Stopped? {
      assert c != 0;
      assert !HasFrame(m.frames, c) by {
        forall k | 0 <= k < |m.frames| ensures !IsFrameOf(m.frames[k], c) {
          assert FrameOk(m.frames, k);
          assert !IsCallOf(m.frames[k], c);
        }
      }
      forall t | 0 <= t < |n.env.threads| ensures ThreadOk(n, t)
      {
        assert ThreadOk(m, t);
      }
      StacksAfterExit(m, n);
    }
  }

  lemma StacksAfterExit(m: Machine, n: Machine)
    requires Inv(m) && 0 < m.env.current < |m.env.threads| && m.env.threads[m.env.current].active
    requires ThreadExit(m.env).Fine?
    requires n.env == ThreadExit(m.env).env && n.born == m.born
    requires n.freed == m.freed + [(m.env.current, m.env.threads[m.env.current].stack.value)]
    ensures StacksOk(n)
  {
    var c := m.env.current;
    var ts := n.env.threads;
    forall t | 0 < t < |ts| ensures !ts[t].active <==> (t, n.born[t]) in n.freed {
      if t != c {
        assert (t, m.born[t]) in n.freed <==> (t, m.born[t]) in m.freed;
      }
    }
    assert (c, m.born[c]) !in m.freed;
  }

  // ---------------------------------------------------------------- the host call stack

  lemma PushKeepsCalls(frames: seq<Frame>, f: Frame, t: ThreadId)
    ensures HasCall(frames + [f], t) <==> HasCall(frames, t) || IsCallOf(f, t)
    ensures HasFrame(frames + [f], t) <==> HasFrame(frames, t) || IsFrameOf(f, t)
  {
    var longer := frames + [f];
    if HasCall(frames, t) {
      var k :| 0 <= k < |frames| && IsCallOf(frames[k], t);
      assert IsCallOf(longer[k], t);
    }
    if HasFrame(frames, t) {
      var k :| 0 <= k < |frames| && IsFrameOf(frames[k], t);
      assert IsFrameOf(longer[k], t);
    }
    assert longer[|frames|] == f;
  }

  lemma SetHostKeepsCalls(frames: seq<Frame>, h: Option<HostCall>, t: ThreadId)
    requires frames != []
    ensures HasCall(SetTopHost(frames, h), t) <==> HasCall(frames, t)
    ensures HasFrame(SetTopHost(frames, h), t) <==> HasFrame(frames, t)
  {
    var last := Top(frames);
    assert frames == Pop(frames) + [last];
    assert SetTopHost(frames, h) == Pop(frames) + [last.(host := h)];
    PushKeepsCalls(Pop(frames), last, t);
    PushKeepsCalls(Pop(frames), last.(host := h), t);
  }

  /** Changing a thread's host flag, the phase, or the top of the stack leaves contexts, waits and stacks alone. */
  ghost predicate FlagChange(m: Machine, n: Machine) {
    && |n.env.threads| == |m.env.threads| && n.born == m.born && n.freed == m.freed
    && n.env == m.env.(threads := n.env.threads, cpu := n.env.cpu)
    && (forall t :: 0 <= t < |m.env.threads| ==>
          n.env.threads[t] == m.env.threads[t].(inHostFunction := n.env.threads[t].inHostFunction))
  }

  lemma FlagChangeKeeps(m: Machine, n: Machine)
    requires ThreadsOk(m) && StacksOk(m) && FlagChange(m, n)
    requires forall t: ThreadId :: HasCall(m.frames, t) ==> HasCall(n.frames, t)
    requires forall t: ThreadId :: HasFrame(n.frames, t) ==> HasFrame(m.frames, t) || t == m.env.current
    requires m.env.threads[m.env.current].active
    requires m.env.threads[m.env.current].blockedBy.DeferredReturn? ==> m.phase == n.phase && m.frames == n.frames
    requires forall t :: 0 <= t < |n.env.threads| ==> FlagOk(n, t)
    ensures ThreadsOk(n) && StacksOk(n)
  {
    forall t | 0 <= t < |n.env.threads| ensures ThreadOk(n, t) {
      assert ThreadOk(m, t);
    }
  }

  /** Entering `run_inner` from host code: its assertions hold and the stack grows by one frame. */
  lemma EnterKeeps(m: Machine, root: bool)
    requires Inv(m) && m.phase.Host? && (root ==> m.frames == [])
    ensures var n := if root then Enter(m, true, false) else RunCalled(m);
            Inv(n) && n.frames == m.frames + [Frame(m.env.current, root, m.frames != [], None)]
  {
    var c := m.env.current;
    var n := if root then Enter(m, true, false) else RunCalled(m);
    assert ThreadOk(m, c);
    var pushed := Frame(c, root, m.frames != [], None);
    forall t: ThreadId ensures HasCall(m.frames, t) ==> HasCall(n.frames, t)
                       ensures HasFrame(n.frames, t) ==> HasFrame(m.frames, t) || t == c {
      PushKeepsCalls(m.frames, pushed, t);
    }
    forall t | 0 <= t < |n.env.threads| ensures FlagOk(n, t) { assert ThreadOk(m, t); }
    FlagChangeKeeps(m, n);
    forall k | 0 <= k < |n.frames| ensures FrameOk(n.frames, k) {
      if k < |m.frames| { assert FrameOk(m.frames, k); }
    }
  }

  lemma SetHostKeepsFrames(frames: seq<Frame>, h: Option<HostCall>)
    requires frames != [] && FramesOk(frames)
    ensures FramesOk(SetTopHost(frames, h))
    ensures forall t: ThreadId :: HasCall(SetTopHost(frames, h), t) <==> HasCall(frames, t)
    ensures forall t: ThreadId :: HasFrame(SetTopHost(frames, h), t) <==> HasFrame(frames, t)
  {
    var n := SetTopHost(frames, h);
    forall k | 0 <= k < |n| ensures FrameOk(n, k) { assert FrameOk(frames, k); }
    forall t: ThreadId ensures HasCall(n, t) <==> HasCall(frames, t) ensures HasFrame(n, t) <==> HasFrame(frames, t) {
      SetHostKeepsCalls(frames, h, t);
    }
  }

  /** A host function returns to `handle_cpu_state` on the thread it was called on. */
  lemma HostReturnKeeps(m: Machine)
    requires Inv(m) && m.phase.Host? && m.frames != []
    ensures Top(m.frames).host == Some(HostCall(m.env.current, false))
    ensures Inv(HostReturned(m))
  {
    var n := HostReturned(m);
    assert ThreadOk(m, m.env.current);
    SetHostKeepsFrames(m.frames, None);
    forall t | 0 <= t < |n.env.threads| ensures FlagOk(n, t) { assert ThreadOk(m, t); }
    FlagChangeKeeps(m, n);
  }

  lemma HostCallKeeps(m: Machine)
    requires Inv(m) && m.phase.Guest?
    ensures Inv(HostCalled(m))
  {
    var c := m.env.current;
    var n := HostCalled(m);
    assert ThreadOk(m, c);
    SetHostKeepsFrames(m.frames, Some(HostCall(c, m.env.threads[c].inHostFunction)));
    forall t | 0 <= t < |n.env.threads| ensures FlagOk(n, t) { assert ThreadOk(m, t); }
    FlagChangeKeeps(m, n);
  }

  lemma GuestStepsKeep(m: Machine, cpu: Cpu)
    requires Inv(m) && m.phase.Guest?
    ensures Inv(m.(env := m.env.(cpu := cpu))) && Inv(m.(phase := Deciding))
  {
    var n := m.(env := m.env.(cpu := cpu));
    var d := m.(phase := Deciding);
    forall t | 0 <= t < |n.env.threads| ensures FlagOk(n, t) && FlagOk(d, t) { assert ThreadOk(m, t); }
    FlagChangeKeeps(m, n);
    FlagChangeKeeps(m, d);
  }

  /** The state in which `run_inner` returns: the frame's own thread is current and may run. */
  ghost predicate ReadyToLeave(m: Machine) {
    && ThreadsOk(m) && FramesOk(m.frames) && StacksOk(m)
    && m.frames != [] && !m.phase.Host? && Top(m.frames).host.None? && !Top(m.frames).root
    && Runnable(m.env.threads[m.env.current])
    && m.env.current == Top(m.frames).initial
  }

  /**
   The stack shrinks only when a non-root activation returns, with its own thread current,
   unblocked, and its flag restored.
   */
  ghost predicate ReturnedProperly(m: Machine, n: Machine) {
    && m.frames != [] && !Top(m.frames).root && n.frames == Pop(m.frames) && n.phase.Host?
    && n.env.current == Top(m.frames).initial < |n.env.threads|
    && n.env.threads[n.env.current].blockedBy.NotBlocked?
    && n.env.threads[n.env.current].inHostFunction == Top(m.frames).callerFlag
    && (n.frames != [] ==> Top(n.frames).host == Some(HostCall(n.env.current, false)))
  }

  lemma LeaveFrames(m: Machine)
    requires FramesOk(m.frames) && m.frames != []
    ensures FramesOk(Pop(m.frames))
    ensures Top(m.frames).callerFlag <==> Pop(m.frames) != []
    ensures Pop(m.frames) == [] ==> Top(m.frames).initial == 0
    ensures Pop(m.frames) != [] ==> Top(Pop(m.frames)).host == Some(HostCall(Top(m.frames).initial, false))
  {
    var last := |m.frames| - 1;
    assert FrameOk(m.frames, last);
    if last > 0 { assert FrameOk(m.frames, last - 1); }
    forall k | 0 <= k < last ensures FrameOk(Pop(m.frames), k) { assert FrameOk(m.frames, k); }
  }

  lemma LeaveThread(m: Machine, t: ThreadId)
    requires ReadyToLeave(m) && t < |m.env.threads| && (Top(m.frames).callerFlag <==> Pop(m.frames) != [])
    ensures ThreadOk(Leave(m), t)
  {
    assert m.frames == Pop(m.frames) + [Top(m.frames)];
    assert ThreadOk(m, t);
    PushKeepsCalls(Pop(m.frames), Top(m.frames), t);
  }

  lemma LeaveKeeps(m: Machine)
    requires ReadyToLeave(m)
    ensures Inv(Leave(m)) && ReturnedProperly(m, Leave(m))
  {
    LeaveFrames(m);
    var n := Leave(m);
    forall t | 0 <= t < |n.env.threads| ensures ThreadOk(n, t) { LeaveThread(m, t); }
    SameStacks(m, n);
  }

  lemma CallsAreNotRoot(m: Machine, t: ThreadId)
    requires FramesOk(m.frames) && HasCall(m.frames, t)
    ensures m.frames != [] && !Top(m.frames).root
  {
    var k :| 0 <= k < |m.frames| && IsCallOf(m.frames[k], t);
    assert FrameOk(m.frames, |m.frames| - 1);
  }

  lemma DeferKeeps(m: Machine)
    requires Inv(m) && m.phase.Guest? && HasCall(m.frames, m.env.current) && m.env.current != Top(m.frames).initial
    ensures Inv(m.(env := SetBlock(m.env, m.env.current, DeferredReturn), phase := Deciding))
  {
    var n := m.(env := SetBlock(m.env, m.env.current, DeferredReturn), phase := Deciding);
    forall t | 0 <= t < |n.env.threads| ensures ThreadOk(n, t) { assert ThreadOk(m, t); }
    SameStacks(m, n);
  }

  lemma SvcReturnKeeps(m: Machine)
    requires Inv(m) && m.phase.Guest? && HasCall(m.frames, m.env.current)
    ensures Inv(ReturnedToHost(m))
    ensures ReturnedToHost(m).frames == m.frames || ReturnedProperly(m, ReturnedToHost(m))
  {
    CallsAreNotRoot(m, m.env.current);
    if m.env.current == Top(m.frames).initial {
      assert ThreadOk(m, m.env.current);
      LeaveKeeps(m);
    } else {
      DeferKeeps(m);
    }
  }

  // ---------------------------------------------------------------- scheduling

  /** In the scheduling loop nothing is known about the thread that last ran; everything else is as usual. */
  ghost predicate BetweenThreads(m: Machine) {
    ThreadsOk(m) && FramesOk(m.frames) && StacksOk(m) && m.frames != [] && Top(m.frames).host.None? && m.phase.Deciding?
  }

  lemma WakingKeeps(m: Machine, e1: Env)
    requires BetweenThreads(m) && WokenFrom(m.env, e1)
    ensures BetweenThreads(m.(env := e1))
  {
    var n := m.(env := e1);
    forall t | 0 <= t < |e1.threads| ensures ThreadOk(n, t) {
      assert ThreadOk(m, t) && SameOrWoken(m.env.threads[t], e1.threads[t]);
    }
    forall t | 0 <= t < |e1.threads|
      ensures e1.threads[t].active == m.env.threads[t].active && e1.threads[t].stack == m.env.threads[t].stack
    {
      assert SameOrWoken(m.env.threads[t], e1.threads[t]);
    }
  }

  /** The context exchange, written out: the two threads trade places, everyone else is untouched. */
  lemma SwitchIs(e: Env, t: ThreadId)
    requires e.current < |e.threads| && t < |e.threads| && t != e.current
    requires e.threads[t].context.Some? && e.threads[e.current].context.None?
    ensures SwitchThread(e, t).Fine?
    ensures var e1 := SwitchThread(e, t).env;
            && e1 == e.(threads := e1.threads, cpu := e.threads[t].context.value, current := t)
            && |e1.threads| == |e.threads|
            && e1.threads[t] == e.threads[t].(context := None)
            && e1.threads[e.current] == e.threads[e.current].(context := Some(e.cpu))
            && forall u :: 0 <= u < |e.threads| && u != t && u != e.current ==> e1.threads[u] == e.threads[u]
  {
  }

  /** Switching to a thread that may run never trips an assertion of `switch_thread`. */
  lemma SwitchKeeps(m: Machine, t: ThreadId)
    requires BetweenThreads(m) && t < |m.env.threads| && t != m.env.current &&
             !m.env.threads[t].blockedBy.DeferredReturn?
    ensures SwitchThread(m.env, t).Fine?
    ensures BetweenThreads(m.(env := SwitchThread(m.env, t).env))
    ensures SwitchThread(m.env, t).env.current == t
    ensures forall u :: 0 <= u < |m.env.threads| ==>
              SwitchThread(m.env, t).env.threads[u] ==
                m.env.threads[u].(context := SwitchThread(m.env, t).env.threads[u].context)
  {
    assert ThreadOk(m, t) && ThreadOk(m, m.env.current);
    SwitchIs(m.env, t);
    var e1 := SwitchThread(m.env, t).env;
    var n := m.(env := e1);
    forall u | 0 <= u < |e1.threads| ensures ThreadOk(n, u) {
      assert ThreadOk(m, u);
      assert e1.threads[u] == m.env.threads[u].(context := e1.threads[u].context);
    }
    SameStacks(m, n);
  }

  lemma RelockIs(e: Env, id: MutexId)
    requires e.current < |e.threads| && RelockMutex(e, id).Fine?
    ensures var e1 := RelockMutex(e, id).env;
            || e1 == e.(mutexes := e1.mutexes)
            || (e.threads[e.current].blockedBy.NotBlocked? &&
               e1 == SetBlock(e.(mutexes := e1.mutexes), e.current, OnMutex(id)))
  {
    LockIs(e, id);
  }

  lemma {:induction false} RelockKeeps(m: Machine, id: MutexId)
    requires BetweenThreads(m) && Runnable(m.env.threads[m.env.current]) && RelockMutex(m.env, id).Fine?
    ensures var e1 := RelockMutex(m.env, id).env;
            BetweenThreads(m.(env := e1)) && e1.current == m.env.current && e1.threads[e1.current].active
            && (e1.threads[e1.current].blockedBy.NotBlocked? || e1.threads[e1.current].blockedBy.OnMutex?)
  {
    RelockIs(m.env, id);
    var e1 := RelockMutex(m.env, id).env;
    var n := m.(env := e1);
    forall t | 0 <= t < |e1.threads| ensures ThreadOk(n, t) { assert ThreadOk(m, t); }
    SameStacks(m, n);
  }

  lemma BeginSlice(m: Machine)
    requires BetweenThreads(m) && m.env.threads[m.env.current].active
    requires !m.env.threads[m.env.current].blockedBy.DeferredReturn?
    ensures Inv(m.(phase := PhaseFor(m.env)))
  {
    var n := m.(phase := PhaseFor(m.env));
    forall t | 0 <= t < |n.env.threads| ensures ThreadOk(n, t) { assert ThreadOk(m, t); }
  }

  lemma UnblockForReturn(m: Machine, t: ThreadId)
    requires BetweenThreads(m) && t < |m.env.threads| && m.env.threads[t].active
    ensures BetweenThreads(m.(env := Unblock(m.env, t)))
  {
    var n := m.(env := Unblock(m.env, t));
    forall u | 0 <= u < |n.env.threads| ensures ThreadOk(n, u) { assert ThreadOk(m, u); }
  }

  /** A deferred return is taken only in a frame that is not the root, for a thread that is not the current one. */
  lemma DeferredFrame(m: Machine)
    requires BetweenThreads(m)
    requires Top(m.frames).initial < |m.env.threads| && m.env.threads[Top(m.frames).initial].blockedBy.DeferredReturn?
    ensures !Top(m.frames).root && Top(m.frames).initial != m.env.current
  {
    var t := Top(m.frames).initial;
    assert ThreadOk(m, t);
    var k :| 0 <= k < |m.frames| && IsCallOf(m.frames[k], t);
    assert FrameOk(m.frames, |m.frames| - 1);
  }

  /** A deferred return: the scan's switch back to the frame's own thread makes `run_inner` ready to return. */
  lemma ReturnToIsReady(m: Machine, clock: Clock)
    requires Inv(m) && m.phase.Deciding?
    requires Scan(m.env, Top(m.frames).initial, clock, 0, NothingFound).ReturnTo?
    ensures Decide(m.env, Top(m.frames).initial, clock).ReturnToCaller?
    ensures ReadyToLeave(m.(env := Decide(m.env, Top(m.frames).initial, clock).env))
  {
    var initial := Top(m.frames).initial;
    ScanWakes(m.env, initial, clock, 0, NothingFound);
    var e1 := Scan(m.env, initial, clock, 0, NothingFound).env;
    var m1 := m.(env := e1);
    WakingKeeps(m, e1);
    DeferredFrame(m1);
    UnblockForReturn(m1, initial);
    var m2 := m1.(env := Unblock(e1, initial));
    SwitchKeeps(m2, initial);
    assert ThreadOk(m2, initial);
  }

  lemma ReturnToKeeps(m: Machine, clock: Clock)
    requires Inv(m) && m.phase.Deciding?
    requires Scan(m.env, Top(m.frames).initial, clock, 0, NothingFound).ReturnTo?
    ensures Inv(Scheduled(m, clock)) && ReturnedProperly(m, Scheduled(m, clock))
  {
    ReturnToIsReady(m, clock);
    LeaveKeeps(m.(env := Decide(m.env, Top(m.frames).initial, clock).env));
  }

  /** After the scan has picked `t`: switch to it if need be, relock if asked, and go on. */
  lemma ResumeKeeps(m: Machine, t: ThreadId, relock: Option<MutexId>)
    requires BetweenThreads(m) && t < |m.env.threads| && Runnable(m.env.threads[t])
    ensures t != m.env.current ==> SwitchThread(m.env, t).Fine?
    ensures var e2 := if t != m.env.current then SwitchThread(m.env, t).env else m.env;
            && e2.current == t && |e2.threads| == |m.env.threads|
            && (relock.None? ==> Inv(m.(env := e2, phase := PhaseFor(e2))))
            && (relock.Some? && RelockMutex(e2, relock.value).Fine? ==>
                  var e3 := RelockMutex(e2, relock.value).env;
                  e3.current < |e3.threads| && Inv(m.(env := e3, phase := PhaseFor(e3))))
  {
    if t != m.env.current { SwitchKeeps(m, t); }
    var e2 := if t != m.env.current then SwitchThread(m.env, t).env else m.env;
    var m2 := m.(env := e2);
    assert Runnable(e2.threads[t]);
    if relock.None? {
      BeginSlice(m2);
    } else if RelockMutex(e2, relock.value).Fine? {
      RelockKeeps(m2, relock.value);
      BeginSlice(m2.(env := RelockMutex(e2, relock.value).env));
    }
  }

  lemma PickedKeeps(m: Machine, clock: Clock)
    requires Inv(m) && m.phase.Deciding?
    requires Scan(m.env, Top(m.frames).initial, clock, 0, NothingFound).Picked?
    ensures Good(Scheduled(m, clock))
  {
    var initial := Top(m.frames).initial;
    ScanWakes(m.env, initial, clock, 0, NothingFound);
    var Picked(e1, t, relock) := Scan(m.env, initial, clock, 0, NothingFound);
    WakingKeeps(m, e1);
    ResumeKeeps(m.(env := e1), t, relock);
  }

  /** Everything a thread may be waiting for is there. */
  ghost predicate NothingDangles(e: Env) {
    && (forall t :: 0 <= t < |e.threads| ==> WaitOk(e, t))
    && (forall t :: 0 <= t < |e.threads| && !e.threads[t].active ==> e.threads[t].returnValue.Some?)
  }

  lemma ArmNeverPanics(e: Env, i: ThreadId, initial: ThreadId, now: int)
    requires i < |e.threads| && NothingDangles(e)
    ensures Arm(e, i, initial, now).ArmPanic? ==> Arm(e, i, initial, now).why.WaitedSemaphoreMissing?
  {
    assert WaitOk(e, i);
  }

  lemma WakingLeavesNothingDangling(a: Env, b: Env)
    requires NothingDangles(a) && WokenFrom(a, b)
    ensures NothingDangles(b)
  {
    forall t | 0 <= t < |b.threads| ensures WaitOk(b, t) && (!b.threads[t].active ==> b.threads[t].returnValue.Some?) {
      assert WaitOk(a, t) && SameOrWoken(a.threads[t], b.threads[t]);
    }
  }

  /**
   The scan itself never panics but over a semaphore: condition variables, joinees and return values
   are all there.
   */
  lemma {:induction false} ScanNeverPanics(e: Env, initial: ThreadId, clock: Clock, k: nat, found: Found)
    requires NothingDangles(e) && 0 < |e.threads| && k <= |e.threads|
    ensures var r := Scan(e, initial, clock, k, found); r.ScanPanic? ==> r.why.WaitedSemaphoreMissing?
    decreases |e.threads| - k
  {
    if k < |e.threads| {
      var i := Candidate(e, k);
      ArmNeverPanics(e, i, initial, clock(k));
      match Arm(e, i, initial, clock(k))
      case Skip => ScanNeverPanics(e, initial, clock, k + 1, found);
      case NotYet(until) => ScanNeverPanics(e, initial, clock, k + 1, found.(next := Earliest(found.next, until)));
      case WakeAndGoOn(e1, id) =>
        ArmWakes(e, i, initial, clock(k));
        WakingLeavesNothingDangling(e, e1);
        ScanNeverPanics(e1, initial, clock, k + 1, found.(suitable := Some(i), relock := Some(id)));
      case _ =>
    }
  }

  lemma InvariantLeavesNothingDangling(m: Machine)
    requires ThreadsOk(m)
    ensures NothingDangles(m.env)
  {
    forall t | 0 <= t < |m.env.threads|
      ensures WaitOk(m.env, t) && (!m.env.threads[t].active ==> m.env.threads[t].returnValue.Some?)
    {
      assert ThreadOk(m, t);
    }
  }

  lemma ScheduleKeeps(m: Machine, clock: Clock)
    requires Inv(m) && m.phase.Deciding?
    ensures Good(Scheduled(m, clock))
  {
    var initial := Top(m.frames).initial;
    var r := Scan(m.env, initial, clock, 0, NothingFound);
    InvariantLeavesNothingDangling(m);
    ScanNeverPanics(m.env, initial, clock, 0, NothingFound);
    ScanWakes(m.env, initial, clock, 0, NothingFound);
    match r
    case Picked(_, _, _) => PickedKeeps(m, clock);
    case ReturnTo(_, _) => ReturnToKeeps(m, clock);
    case Idle(e1, next) => WakingKeeps(m, e1);
    case ScanPanic(_) =>
  }

  // ---------------------------------------------------------------- every step, every run

  lemma HeapStepKeeps(m: Machine, e: Event)
    requires Inv(m) && Enabled(m, e) && (e.Alloc? || e.Free?)
    ensures Good(Step(m, e))
  {
    HeapKeeps(m, if e.Alloc? then m.env.heap[e.base := e.size] else m.env.heap - {e.base});
  }

  lemma GuestStepKeeps(m: Machine, e: Event)
    requires Inv(m) && m.phase.Guest? && (e.Ran? || e.TimeSliceOver? || e.CallHost?)
    ensures Good(Step(m, e))
  {
    GuestStepsKeep(m, if e.Ran? then e.cpu else m.env.cpu);
    HostCallKeeps(m);
  }

  lemma {:induction false} StackStepKeeps(m: Machine, e: Event)
    requires Inv(m) && Enabled(m, e) && (e.RunRoot? || e.RunCall? || e.HostReturn? || e.HostCpu?)
    ensures Good(Step(m, e))
  {
    hide ThreadsOk, StacksOk;
    match e
    case RunRoot => EnterKeeps(m, true);
    case RunCall => EnterKeeps(m, false);
    case HostReturn => HostReturnKeeps(m);
    case HostCpu(cpu) => SameThreads(m, m.env.(cpu := cpu));
  }

  lemma {:induction false} HostStepKeeps(m: Machine, e: Event)
    requires Inv(m) && Enabled(m, e) && HostEvent(e)
    ensures Good(Step(m, e))
  {
    hide Step, Good, ThreadsOk, StacksOk;
    match e
    case MutexInit(kind) => InitMutexKeeps(m, kind);
    case MutexLock(id) => LockKeeps(m, id);
    case MutexUnlock(id) => UnlockKeeps(m, id);
    case MutexDestroy(id) => DestroyMutexKeeps(m, id);
    case SemaphoreInit(s, v) => SemInitKeeps(m, s, v);
    case SemaphoreDestroy(s) => SemDestroyKeeps(m, s);
    case SemaphorePost(s) => SemPostKeeps(m, s);
    case SemaphoreWait(s, wait) => SemaphoreWaitKeeps(m, s, wait);
    case Join(j, ptr) => JoinKeeps(m, j, ptr);
    case Sleep(until) => SleepKeeps(m, until);
    case ConditionInit(c) => CondInitKeeps(m, c);
    case ConditionBroadcast(c) => CondBroadcastKeeps(m, c);
    case ConditionDestroy(c) => CondDestroyKeeps(m, c);
    case ConditionSignal(c) => ConditionSignalKeeps(m, c);
    case ConditionWait(c, id) => ConditionWaitKeeps(m, c, id);
    case Create(start, userData, size, base) => CreateKeeps(m, start, userData, size, base);
    case Alloc(_, _) => HeapStepKeeps(m, e);
    case Free(_) => HeapStepKeeps(m, e);
    case _ => StackStepKeeps(m, e);
  }

  /** Every step of every run keeps the invariant, or stops for a reason that is not the scheduler's own. */
  lemma StepKeeps(m: Machine, e: Event)
    requires Inv(m) && Enabled(m, e)
    ensures Good(Step(m, e))
  {
    if HostEvent(e) {
      HostStepKeeps(m, e);
    } else {
      match e
      case SvcReturnToHost => SvcReturnKeeps(m);
      case SvcThreadExit => ExitKeeps(m);
      case Schedule(clock) => ScheduleKeeps(m, clock);
      case _ => GuestStepKeeps(m, e);
    }
  }

  /** The emulator before any guest code has run. */
  function Start(cpu: Cpu, stackLow: u32, exitRoutine: u32): Machine {
    Machine(Env([Thread(true, NotBlocked, false, None, false, None, Some(stackLow))], 0, cpu,
                map[], 0, map[], map[], map[], map[], exitRoutine),
            [], Host, [stackLow], [])
  }

  lemma StartIsGood(cpu: Cpu, stackLow: u32, exitRoutine: u32)
    ensures Inv(Start(cpu, stackLow, exitRoutine))
  {
    var m := Start(cpu, stackLow, exitRoutine);
    assert ThreadOk(m, 0);
  }

  /** A sequence of events each of which is possible when its turn comes. */
  ghost predicate Legal(m: Machine, es: seq<Event>)
    decreases |es|
  {
    es == [] ||
    (!m.phase.Stopped? && m.env.current < |m.env.threads| && Enabled(m, es[0]) && Legal(Step(m, es[0]), es[1..]))
  }

  function Run(m: Machine, es: seq<Event>): Machine
    decreases |es|
  {
    if es == [] || m.env.current >= |m.env.threads| then m else Run(Step(m, es[0]), es[1..])
  }

  lemma {:induction false} RunKeeps(m: Machine, es: seq<Event>)
    requires Inv(m) && Legal(m, es)
    ensures Good(Run(m, es))
    decreases |es|
  {
    if es != [] {
      StepKeeps(m, es[0]);
      if Step(m, es[0]).phase.Stopped? {
        assert es[1..] == [];
      } else {
        RunKeeps(Step(m, es[0]), es[1..]);
      }
    }
  }
}
