/**
 Mutexes and semaphores over whole runs: counting who waits for what
 (src/environment/mutex.rs:85-245, src/environment.rs:773-836, 1148-1179, 1240-1247).
 */
module Waiters {
  import opened Prelude
  import opened Threads
  import opened Scheduler
  import opened Runs
  import opened RunInvariant

  /** How many threads are blocked by exactly `b`. */
  function Blocked(ts: seq<Thread>, b: Block): nat {
    if ts == [] then 0 else Blocked(ts[..|ts| - 1], b) + (if ts[|ts| - 1].blockedBy == b then 1 else 0)
  }

  function One(p: bool): nat { if p then 1 else 0 }

  lemma {:induction false} BlockedUpdate(ts: seq<Thread>, t: nat, th: Thread, b: Block)
    requires t < |ts|
    ensures Blocked(ts[t := th], b) + One(ts[t].blockedBy == b) == Blocked(ts, b) + One(th.blockedBy == b)
  {
    var last := |ts| - 1;
    if t < last {
      BlockedUpdate(ts[..last], t, th, b);
      assert ts[t := th][..last] == ts[..last][t := th];
    } else {
      assert ts[t := th][..last] == ts[..last];
    }
  }

  lemma {:induction false} BlockedSame(ts: seq<Thread>, us: seq<Thread>, b: Block)
    requires |ts| == |us| && forall t :: 0 <= t < |ts| ==> (ts[t].blockedBy == b <==> us[t].blockedBy == b)
    ensures Blocked(ts, b) == Blocked(us, b)
  {
    if ts != [] { BlockedSame(ts[..|ts| - 1], us[..|us| - 1], b); }
  }

  lemma {:induction false} BlockedNone(ts: seq<Thread>, b: Block)
    ensures Blocked(ts, b) == 0 <==> forall t :: 0 <= t < |ts| ==> ts[t].blockedBy != b
  {
    if ts != [] {
      BlockedNone(ts[..|ts| - 1], b);
      assert forall t :: 0 <= t < |ts| - 1 ==> ts[..|ts| - 1][t] == ts[t];
    }
  }

  lemma SetBlockCounts(e: Env, t: ThreadId, b: Block, c: Block)
    requires t < |e.threads|
    ensures Blocked(SetBlock(e, t, b).threads, c) + One(e.threads[t].blockedBy == c) ==
            Blocked(e.threads, c) + One(b == c)
  {
    BlockedUpdate(e.threads, t, e.threads[t].(blockedBy := b), c);
  }

  // ---------------------------------------------------------------- semaphores

  function SemValue(e: Env, s: nat): int {
    if s in e.sems then e.sems[s].value else 0
  }

  /** Tokens available minus threads queued for one. */
  function Balance(e: Env, s: nat): int {
    SemValue(e, s) - Blocked(e.threads, OnSemaphore(s))
  }

  /** What an arm that wakes thread `i` does, apart from conditions and join results. */
  lemma ArmIs(e: Env, i: ThreadId, initial: ThreadId, now: int)
    requires i < |e.threads|
    requires Arm(e, i, initial, now).Wake? || Arm(e, i, initial, now).WakeAndGoOn?
    ensures var r := Arm(e, i, initial, now).env;
            && r.threads == (if e.threads[i].blockedBy.NotBlocked? then e.threads else Unblock(e, i).threads)
            && (!e.threads[i].blockedBy.OnSemaphore? ==> r.sems == e.sems)
  {
  }

  lemma SemaphoreArmTakesOne(e: Env, i: ThreadId, initial: ThreadId, now: int)
    requires i < |e.threads| && e.threads[i].blockedBy.OnSemaphore? && Arm(e, i, initial, now).Wake?
    ensures forall s: nat ::
              SemValue(Arm(e, i, initial, now).env, s) == SemValue(e, s) - One(e.threads[i].blockedBy == OnSemaphore(s))
  {
  }

  /** Waking one candidate keeps every semaphore's balance: a woken waiter has consumed exactly one token. */
  lemma ArmBalances(e: Env, i: ThreadId, initial: ThreadId, now: int, s: nat)
    requires i < |e.threads|
    requires Arm(e, i, initial, now).Wake? || Arm(e, i, initial, now).WakeAndGoOn?
    ensures Balance(Arm(e, i, initial, now).env, s) == Balance(e, s)
  {
    ArmIs(e, i, initial, now);
    SetBlockCounts(e, i, NotBlocked, OnSemaphore(s));
    if e.threads[i].blockedBy.OnSemaphore? { SemaphoreArmTakesOne(e, i, initial, now); }
  }

  lemma {:induction false} ScanBalances(e: Env, initial: ThreadId, clock: Clock, k: nat, found: Found, s: nat)
    requires 0 < |e.threads| && k <= |e.threads|
    ensures match Scan(e, initial, clock, k, found)
            case Picked(e1, _, _) => Balance(e1, s) == Balance(e, s)
            case ReturnTo(e1, _) => Balance(e1, s) == Balance(e, s)
            case Idle(e1, _) => Balance(e1, s) == Balance(e, s)
            case ScanPanic(_) => true
    decreases |e.threads| - k
  {
    hide Balance, Arm;
    if k < |e.threads| {
      var i := Candidate(e, k);
      var r := Arm(e, i, initial, clock(k));
      ArmWakes(e, i, initial, clock(k));
      if r.Wake? || r.WakeAndGoOn? { ArmBalances(e, i, initial, clock(k), s); }
      match r
      case Skip => ScanBalances(e, initial, clock, k + 1, found, s);
      case NotYet(until) => ScanBalances(e, initial, clock, k + 1, found.(next := Earliest(found.next, until)), s);
      case WakeAndGoOn(e1, id) =>
        ScanBalances(e1, initial, clock, k + 1, found.(suitable := Some(i), relock := Some(id)), s);
      case _ =>
    }
  }

  // ---------------------------------------------------------------- how steps change the counts

  /** `us` is `ts` with possibly another block for thread `c`, and possibly more threads that are not blocked by `b`. */
  lemma {:induction false} CountsMove(ts: seq<Thread>, us: seq<Thread>, c: nat, b: Block)
    requires c < |ts| <= |us|
    requires forall t :: 0 <= t < |ts| && t != c ==> (us[t].blockedBy == b <==> ts[t].blockedBy == b)
    requires forall t :: |ts| <= t < |us| ==> us[t].blockedBy != b
    ensures Blocked(us, b) + One(ts[c].blockedBy == b) == Blocked(ts, b) + One(us[c].blockedBy == b)
    decreases |us|
  {
    if |us| > |ts| {
      CountsMove(ts, us[..|us| - 1], c, b);
    } else {
      BlockedUpdate(ts, c, us[c], b);
      BlockedSame(ts[c := us[c]], us, b);
    }
  }

  /** A step without a decision changes no other thread than the current one, and adds only unblocked threads. */
  ghost predicate HostMoves(a: Env, b: Env) {
    && a.current < |a.threads| <= |b.threads| && b.current == a.current
    && (forall t :: 0 <= t < |a.threads| && t != a.current ==> b.threads[t] == a.threads[t])
    && (forall t :: |a.threads| <= t < |b.threads| ==> b.threads[t].blockedBy.NotBlocked?)
    && b.threads[a.current].context == a.threads[a.current].context
  }

  lemma CreateMoves(e: Env, start: u32, userData: u32, size: u32, base: u32)
    requires e.current < |e.threads| && e.threads[e.current].context.None?
    requires NewThread(e, start, userData, size, base).Fine?
    ensures HostMoves(e, NewThread(e, start, userData, size, base).env)
    ensures NewThread(e, start, userData, size, base).env.threads[e.current] == e.threads[e.current]
    ensures NewThread(e, start, userData, size, base).env.sems == e.sems
    ensures NewThread(e, start, userData, size, base).env.mutexes == e.mutexes
  {
    NewThreadIs(e, start, userData, size, base);
  }

  predicate MutexEvent(e: Event) {
    e.MutexLock? || e.MutexUnlock? || e.MutexInit? || e.MutexDestroy? || e.ConditionWait?
  }

  predicate SemaphoreEvent(e: Event) {
    e.SemaphoreInit? || e.SemaphoreDestroy? || e.SemaphorePost? || e.SemaphoreWait?
  }

  predicate StackEvent(e: Event) {
    e.RunRoot? || e.RunCall? || e.HostReturn? || e.HostCpu? || e.Alloc? || e.Free?
  }

  lemma LockMoves(e: Env, id: MutexId)
    requires e.current < |e.threads| && LockMutex(e, id).Fine?
    ensures var e1 := LockMutex(e, id).env;
            HostMoves(e, e1) && e1.sems == e.sems && |e1.threads| == |e.threads| &&
            (e1.threads == e.threads ||
             (e.threads[e.current].blockedBy.NotBlocked? && e1.threads[e.current].blockedBy == OnMutex(id)))
  {
    LockIs(e, id);
  }

  lemma CondWaitMoves(e: Env, c: nat, id: MutexId)
    requires e.current < |e.threads| && CondWait(e, c, id).Fine?
    ensures var e1 := CondWait(e, c, id).env;
            HostMoves(e, e1) && e1.sems == e.sems && |e1.threads| == |e.threads| &&
            e.threads[e.current].blockedBy.NotBlocked? && e1.threads[e.current].blockedBy.OnCondition?
  {
    CondWaitIs(e, c, id);
  }

  /** A mutex event moves at most the current thread, from running to waiting for a mutex or a condition. */
  lemma MutexEventMoves(m: Machine, e: Event)
    requires m.env.current < |m.env.threads| && MutexEvent(e) && !HostStep(m, e).phase.Stopped?
    ensures var e1 := HostStep(m, e).env;
            HostMoves(m.env, e1) && e1.sems == m.env.sems && |e1.threads| == |m.env.threads| &&
            (e1.threads == m.env.threads ||
             (m.env.threads[m.env.current].blockedBy.NotBlocked? &&
              (e1.threads[m.env.current].blockedBy.OnMutex? || e1.threads[m.env.current].blockedBy.OnCondition?)))
  {
    match e
    case MutexLock(id) => if LockMutex(m.env, id).Fine? { LockMoves(m.env, id); }
    case ConditionWait(c, id) => if CondWait(m.env, c, id).Fine? { CondWaitMoves(m.env, c, id); }
    case _ =>
  }

  lemma SemaphoreEventMoves(m: Machine, e: Event)
    requires m.env.current < |m.env.threads| && SemaphoreEvent(e)
    ensures HostMoves(m.env, HostStep(m, e).env) && HostStep(m, e).env.mutexes == m.env.mutexes
  {
  }

  lemma {:induction false} StackEventMoves(m: Machine, e: Event)
    requires m.env.current < |m.env.threads| && StackEvent(e)
    ensures HostMoves(m.env, HostStep(m, e).env)
    ensures HostStep(m, e).env.mutexes == m.env.mutexes && HostStep(m, e).env.sems == m.env.sems
    ensures HostStep(m, e).env.threads[m.env.current].blockedBy == m.env.threads[m.env.current].blockedBy
  {
    hide LockMutex, UnlockMutex, InitMutex, DestroyMutex, SemInit, SemIncrement, SemDecrement, CondWait, NewThread,
      BlockCurrent;
  }

  lemma {:induction false} OtherHostEventMoves(m: Machine, e: Event)
    requires m.env.current < |m.env.threads| && HostEvent(e) && !e.Create?
    requires !MutexEvent(e) && !SemaphoreEvent(e) && !StackEvent(e)
    ensures HostMoves(m.env, HostStep(m, e).env)
    ensures HostStep(m, e).env.mutexes == m.env.mutexes && HostStep(m, e).env.sems == m.env.sems
    ensures var b := HostStep(m, e).env.threads[m.env.current].blockedBy;
            b == m.env.threads[m.env.current].blockedBy ||
              (m.env.threads[m.env.current].blockedBy.NotBlocked? && (b.Joining? || b.Sleeping?))
  {
    hide LockMutex, UnlockMutex, InitMutex, DestroyMutex, SemInit, SemIncrement, SemDecrement, CondWait, NewThread,
      RunCalled, HostReturned;
  }

  lemma CallMoves(m: Machine)
    requires m.env.current < |m.env.threads| && m.frames != []
    ensures HostMoves(m.env, HostCalled(m).env) && HostCalled(m).env == m.env.(threads := HostCalled(m).env.threads)
    ensures HostCalled(m).env.threads[m.env.current].blockedBy == m.env.threads[m.env.current].blockedBy
  {
  }

  lemma ReturnMoves(m: Machine)
    requires m.env.current < |m.env.threads| && m.env.threads[m.env.current].blockedBy.NotBlocked? && m.frames != []
    ensures var n := ReturnedToHost(m).env;
            && HostMoves(m.env, n) && n == m.env.(threads := n.threads)
            && (n.threads[m.env.current].blockedBy.NotBlocked? || n.threads[m.env.current].blockedBy.DeferredReturn?)
  {
  }

  lemma ExitMoves(m: Machine)
    requires m.env.current < |m.env.threads|
    ensures var n := Exited(m).env;
            && HostMoves(m.env, n) && n == m.env.(threads := n.threads, heap := n.heap)
            && n.threads[m.env.current].blockedBy == m.env.threads[m.env.current].blockedBy
  {
  }

  lemma {:induction false} GuestStepMoves(m: Machine, e: Event)
    requires m.env.current < |m.env.threads| && m.env.threads[m.env.current].blockedBy.NotBlocked?
    requires !HostEvent(e) && !e.Schedule?
    ensures HostMoves(m.env, Step(m, e).env)
    ensures Step(m, e).env.sems == m.env.sems && Step(m, e).env.mutexes == m.env.mutexes
    ensures var b := Step(m, e).env.threads[m.env.current].blockedBy; b.NotBlocked? || b.DeferredReturn?
  {
    hide HostStep, Scheduled, HostCalled, ReturnedToHost, Exited;
    if m.frames != [] {
      CallMoves(m);
      ReturnMoves(m);
      ExitMoves(m);
    }
  }

  lemma HostEventMoves(m: Machine, e: Event)
    requires m.env.current < |m.env.threads| && HostEvent(e) && m.env.threads[m.env.current].context.None?
    requires !m.phase.Stopped? && !HostStep(m, e).phase.Stopped?
    ensures HostMoves(m.env, HostStep(m, e).env)
  {
    if e.Create? {
      CreateMoves(m.env, e.start, e.userData, e.size, e.base);
    } else if MutexEvent(e) {
      MutexEventMoves(m, e);
    } else if SemaphoreEvent(e) {
      SemaphoreEventMoves(m, e);
    } else if StackEvent(e) {
      StackEventMoves(m, e);
    } else {
      OtherHostEventMoves(m, e);
    }
  }

  // ---------------------------------------------------------------- token conservation

  /** What an event owes a semaphore: a post adds one, a granted or queued decrement takes one. */
  function Owed(m: Machine, e: Event, s: nat): int {
    match e
    case SemaphoreInit(s', v) => if s' == s && s !in m.env.sems then AsI32(v) else 0
    case SemaphoreDestroy(s') => if s' == s then -SemValue(m.env, s) else 0
    case SemaphorePost(s') => One(s' == s)
    case SemaphoreWait(s', wait) => if s' == s && (wait || SemValue(m.env, s) > 0) then -1 else 0
    case _ => 0
  }

  /** The event posts semaphore `s` at the largest value there is. */
  predicate Wraps(m: Machine, e: Event, s: nat) {
    e == SemaphorePost(s) && SemValue(m.env, s) == I32_MAX
  }

  /** A decrement takes a token if there is one; only then is one that would not wait answered with true. */
  lemma DecrementAnswers(e: Env, s: nat, wait: bool)
    requires e.current < |e.threads| && SemDecrement(e, s, wait).Fine?
    ensures var Fine(n, granted) := SemDecrement(e, s, wait);
            && s in e.sems && s in n.sems
            && n.sems[s].value == e.sems[s].value - One(e.sems[s].value > 0)
            && (granted <==> wait || n.sems[s].value < e.sems[s].value)
            && n.sems[s].waiting ==
                 (if wait && e.sems[s].value <= 0 then e.sems[s].waiting + {e.current} else e.sems[s].waiting)
  {
  }

  /** Destroying a semaphore takes away it and nothing else, and is answered with 22 (EINVAL) if there was none. */
  lemma DestroyAnswers(e: Env, s: nat)
    ensures SemDestroy(e, s).Fine?
    ensures var Fine(n, code) := SemDestroy(e, s);
            && n == e.(sems := n.sems) && s !in n.sems
            && (forall r: nat :: r != s && r in e.sems ==> r in n.sems && n.sems[r] == e.sems[r])
            && (forall r: nat :: r in n.sems ==> r in e.sems)
            && code == if s in e.sems then 0 else 22
  {
  }

  lemma SemaphoreEventBalances(m: Machine, e: Event, s: nat)
    requires m.env.current < |m.env.threads| && SemaphoreEvent(e) && !HostStep(m, e).phase.Stopped?
    ensures Balance(HostStep(m, e).env, s) == Balance(m.env, s) + Owed(m, e, s) - TWO32 * One(Wraps(m, e, s))
  {
    hide LockMutex, UnlockMutex, InitMutex, DestroyMutex, CondWait, NewThread, RunCalled, HostReturned, Blocked;
    if e.SemaphoreWait? { SetBlockCounts(m.env, m.env.current, OnSemaphore(e.sem), OnSemaphore(s)); }
  }

  lemma ByMoves(a: Env, b: Env, block: Block)
    requires HostMoves(a, b) && !block.NotBlocked?
    ensures Blocked(b.threads, block) + One(a.threads[a.current].blockedBy == block)
            == Blocked(a.threads, block) + One(b.threads[a.current].blockedBy == block)
  {
    CountsMove(a.threads, b.threads, a.current, block);
  }

  lemma HostEventBalances(m: Machine, e: Event, s: nat)
    requires Inv(m) && m.phase.Host? && HostEvent(e) && !Step(m, e).phase.Stopped?
    ensures Balance(Step(m, e).env, s) == Balance(m.env, s) + Owed(m, e, s) - TWO32 * One(Wraps(m, e, s))
  {
    if SemaphoreEvent(e) {
      SemaphoreEventBalances(m, e, s);
    } else if e.Create? {
      assert ThreadOk(m, m.env.current);
      CreateMoves(m.env, e.start, e.userData, e.size, e.base);
      ByMoves(m.env, Step(m, e).env, OnSemaphore(s));
    } else if MutexEvent(e) {
      MutexEventMoves(m, e);
      ByMoves(m.env, Step(m, e).env, OnSemaphore(s));
    } else {
      if StackEvent(e) { StackEventMoves(m, e); } else { OtherHostEventMoves(m, e); }
      ByMoves(m.env, Step(m, e).env, OnSemaphore(s));
    }
  }

  /** The end of a decision: switching and relocking change no semaphore and no semaphore wait. */
  lemma ResumeBalances(e: Env, t: ThreadId, relock: Option<MutexId>, s: nat)
    requires e.current < |e.threads| && t < |e.threads|
    ensures t != e.current && SwitchThread(e, t).Fine? ==> Balance(SwitchThread(e, t).env, s) == Balance(e, s)
    ensures relock.Some? && RelockMutex(e, relock.value).Fine? ==>
            Balance(RelockMutex(e, relock.value).env, s) == Balance(e, s)
  {
    if t != e.current && SwitchThread(e, t).Fine? {
      SwitchIs(e, t);
      BlockedSame(e.threads, SwitchThread(e, t).env.threads, OnSemaphore(s));
    }
    if relock.Some? && RelockMutex(e, relock.value).Fine? {
      RelockIs(e, relock.value);
      SetBlockCounts(e, e.current, OnMutex(relock.value), OnSemaphore(s));
    }
  }

  /** Returning to a deferred caller changes its block and its flag, and swaps contexts. */
  lemma ReturnCounts(e1: Env, t: ThreadId, flag: bool, block: Block)
    requires e1.current < |e1.threads| && t < |e1.threads| && t != e1.current && e1.threads[t].blockedBy.DeferredReturn?
    requires !block.NotBlocked? && !block.DeferredReturn? && SwitchThread(Unblock(e1, t), t).Fine?
    ensures var e4 := SetHostFlag(SwitchThread(Unblock(e1, t), t).env, t, flag);
            Blocked(e4.threads, block) == Blocked(e1.threads, block) && e4.sems == e1.sems && e4.mutexes == e1.mutexes
  {
    var e4 := SetHostFlag(SwitchThread(Unblock(e1, t), t).env, t, flag);
    BlockedSame(e1.threads, e4.threads, block);
  }

  lemma PickedBalances(e1: Env, t: ThreadId, relock: Option<MutexId>, s: nat)
    requires e1.current < |e1.threads| && t < |e1.threads|
    requires t != e1.current ==> SwitchThread(e1, t).Fine?
    ensures var e2 := if t != e1.current then SwitchThread(e1, t).env else e1;
            && e2.current == t && |e2.threads| == |e1.threads| && Balance(e2, s) == Balance(e1, s)
            && (relock.Some? && RelockMutex(e2, relock.value).Fine? ==>
               Balance(RelockMutex(e2, relock.value).env, s) == Balance(e1, s))
  {
    if t != e1.current { SwitchIs(e1, t); }
    ResumeBalances(e1, t, None, s);
    ResumeBalances(if t != e1.current then SwitchThread(e1, t).env else e1, t, relock, s);
  }

  lemma DecideBalances(e: Env, initial: ThreadId, clock: Clock, s: nat)
    requires e.current < |e.threads| && Decide(e, initial, clock).Resume?
    ensures Balance(Decide(e, initial, clock).env, s) == Balance(e, s)
  {
    ScanWakes(e, initial, clock, 0, NothingFound);
    ScanBalances(e, initial, clock, 0, NothingFound, s);
    var r := Scan(e, initial, clock, 0, NothingFound);
    PickedBalances(r.env, r.thread, r.relock, s);
  }

  lemma DecideReturns(e: Env, initial: ThreadId, clock: Clock)
    requires e.current < |e.threads| && Decide(e, initial, clock).ReturnToCaller?
    ensures var r := Scan(e, initial, clock, 0, NothingFound);
            && r.ReturnTo? && r.thread == initial && r.env.current == e.current < |r.env.threads|
            && initial < |r.env.threads| && initial != r.env.current && r.env.threads[initial].blockedBy.DeferredReturn?
            && SwitchThread(Unblock(r.env, initial), initial) == Fine(Decide(e, initial, clock).env, ())
            && WokenFrom(e, r.env)
  {
    ScanWakes(e, initial, clock, 0, NothingFound);
  }

  lemma ScheduleBalances(m: Machine, clock: Clock, s: nat)
    requires m.env.current < |m.env.threads| && m.frames != [] && !Scheduled(m, clock).phase.Stopped?
    ensures Balance(Scheduled(m, clock).env, s) == Balance(m.env, s)
  {
    var initial := Top(m.frames).initial;
    var d := Decide(m.env, initial, clock);
    ScanBalances(m.env, initial, clock, 0, NothingFound, s);
    if d.Resume? {
      DecideBalances(m.env, initial, clock, s);
    } else if d.ReturnToCaller? {
      DecideReturns(m.env, initial, clock);
      ReturnCounts(Scan(m.env, initial, clock, 0, NothingFound).env, initial, Top(m.frames).callerFlag, OnSemaphore(s));
    }
  }

  lemma StepBalances(m: Machine, e: Event, s: nat)
    requires Inv(m) && Enabled(m, e) && !Step(m, e).phase.Stopped?
    ensures Balance(Step(m, e).env, s) == Balance(m.env, s) + Owed(m, e, s) - TWO32 * One(Wraps(m, e, s))
  {
    if HostEvent(e) {
      HostEventBalances(m, e, s);
    } else if e.Schedule? {
      ScheduleBalances(m, e.clock, s);
    } else {
      GuestStepMoves(m, e);
      ByMoves(m.env, Step(m, e).env, OnSemaphore(s));
    }
  }

  function TotalOwed(m: Machine, es: seq<Event>, s: nat): int
    decreases |es|
  {
    if es == [] || m.env.current >= |m.env.threads| then 0
      else Owed(m, es[0], s) + TotalOwed(Step(m, es[0]), es[1..], s)
  }

  /** How many posts of the run found semaphore `s` at the largest value. */
  function TimesWrapped(m: Machine, es: seq<Event>, s: nat): nat
    decreases |es|
  {
    if es == [] || m.env.current >= |m.env.threads| then 0
    else One(Wraps(m, es[0], s)) + TimesWrapped(Step(m, es[0]), es[1..], s)
  }

  /**
   Token conservation. In every run, a semaphore's value minus the threads queued on it is its
   initial value plus the posts minus the decrements that were granted or queued, and minus 2^32
   for each post that wrapped.
   */
  lemma {:induction false} TokensAreConserved(m: Machine, es: seq<Event>, s: nat)
    requires Inv(m) && Legal(m, es) && !Run(m, es).phase.Stopped?
    ensures Balance(Run(m, es).env, s) == Balance(m.env, s) + TotalOwed(m, es, s) - TWO32 * TimesWrapped(m, es, s)
    decreases |es|
  {
    if es != [] {
      StepKeeps(m, es[0]);
      var n := Step(m, es[0]);
      StepBalances(m, es[0], s);
      TokensAreConserved(n, es[1..], s);
    }
  }
}
