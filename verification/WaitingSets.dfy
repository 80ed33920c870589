/**
 The set of waiting threads that a semaphore keeps (src/environment.rs:809, 1173-1176). A wake-up
 removes the thread that ran last from it, not the one it wakes; here is exactly when the set is
 still right, for one wake-up and over runs.
 */
module WaitingSets {
  import opened Prelude
  import opened Threads
  import opened Scheduler
  import opened Runs
  import opened RunInvariant
  import opened Waiters
  import opened SemaphoreRuns
  import opened Needs
  import opened Scenarios

  /** The set of waiters that semaphore `s` keeps; none if there is no such semaphore. */
  function SetOf(e: Env, s: nat): set<ThreadId> {
    if s in e.sems then e.sems[s].waiting else {}
  }

  /** The set of semaphore `s` holds exactly the threads blocked on it. */
  ghost predicate WaitingExact(e: Env, s: nat) {
    forall t: ThreadId :: t in SetOf(e, s) <==> t < |e.threads| && e.threads[t].blockedBy == OnSemaphore(s)
  }

  ghost predicate Exact(e: Env) {
    forall s: nat :: WaitingExact(e, s)
  }

  /** A wake-up keeps the set of its semaphore exact if and only if it wakes the thread that ran last. */
  lemma WakeKeepsExactIff(e: Env, i: ThreadId, initial: ThreadId, now: int, s: nat)
    requires i < |e.threads| && e.threads[i].blockedBy == OnSemaphore(s) && s in e.sems && WaitingExact(e, s)
    requires Arm(e, i, initial, now).Wake?
    ensures var e1 := Arm(e, i, initial, now).env; WaitingExact(e1, s) <==> i == e.current
  {
    var e1 := Arm(e, i, initial, now).env;
    assert e1.threads[i].blockedBy != OnSemaphore(s);
    assert i in SetOf(e, s);
    if i != e.current { assert i in SetOf(e1, s); }
  }

  // ---------------------------------------------------------------- one decision

  lemma SameWaiting(a: Env, b: Env)
    requires b.sems == a.sems && |b.threads| == |a.threads|
    requires forall t :: 0 <= t < |a.threads| ==>
               a.threads[t].blockedBy == b.threads[t].blockedBy ||
                 (!a.threads[t].blockedBy.OnSemaphore? && !b.threads[t].blockedBy.OnSemaphore?)
    ensures Exact(a) <==> Exact(b)
  {
    forall s: nat ensures WaitingExact(a, s) <==> WaitingExact(b, s) {
      assert SetOf(a, s) == SetOf(b, s);
      forall t: ThreadId | t < |a.threads|
        ensures a.threads[t].blockedBy == OnSemaphore(s) <==> b.threads[t].blockedBy == OnSemaphore(s)
      {
      }
    }
  }

  /** A wake-up concerns the set of its own semaphore only. */
  lemma {:induction false} OtherSetsStayExact(e: Env, i: ThreadId, initial: ThreadId, now: int)
    requires i < |e.threads| && e.threads[i].blockedBy.OnSemaphore? && Exact(e) && Arm(e, i, initial, now).Wake?
    ensures var e1 := Arm(e, i, initial, now).env;
            forall u: nat :: u != e.threads[i].blockedBy.sem ==> WaitingExact(e1, u)
  {
    var e1 := Arm(e, i, initial, now).env;
    forall u: nat | u != e.threads[i].blockedBy.sem ensures WaitingExact(e1, u) {
      assert WaitingExact(e, u);
    }
  }

  /** Waking `i` keeps every set exact, unless `i` waited for a semaphore and is not the thread that ran last. */
  lemma {:induction false} ArmKeepsExactIff(e: Env, i: ThreadId, initial: ThreadId, now: int)
    requires i < |e.threads| && Exact(e)
    ensures var r := Arm(e, i, initial, now); r.Wake? ==>
            (Exact(r.env) <==> !e.threads[i].blockedBy.OnSemaphore? || i == e.current)
    ensures var r := Arm(e, i, initial, now); r.WakeAndGoOn? ==> Exact(r.env)
  {
    var r := Arm(e, i, initial, now);
    if r.Wake? && e.threads[i].blockedBy.OnSemaphore? {
      hide WaitingExact;
      WakeKeepsExactIff(e, i, initial, now, e.threads[i].blockedBy.sem);
      OtherSetsStayExact(e, i, initial, now);
    } else if r.Wake? || r.WakeAndGoOn? {
      hide Arm, Exact;
      ArmWakes(e, i, initial, now);
      ArmIs(e, i, initial, now);
      SameWaiting(e, r.env);
    }
  }

  /** `t` waited for a semaphore, and is not the thread that ran last. */
  predicate OtherWaiter(e: Env, t: ThreadId) {
    t < |e.threads| && t != e.current && e.threads[t].blockedBy.OnSemaphore?
  }

  lemma {:induction false} ScanKeepsExactIff(e: Env, initial: ThreadId, clock: Clock, k: nat, found: Found)
    requires 0 < |e.threads| && k <= |e.threads| && Exact(e)
    requires found.suitable.Some? ==> found.suitable.value < |e.threads| && Runnable(e.threads[found.suitable.value])
    ensures var r := Scan(e, initial, clock, k, found);
            && (r.Picked? ==> (Exact(r.env) <==> !OtherWaiter(e, r.thread)))
            && (r.ReturnTo? || r.Idle? ==> Exact(r.env))
    decreases |e.threads| - k
  {
    hide Exact, Arm;
    if k < |e.threads| {
      var i := Candidate(e, k);
      ArmWakes(e, i, initial, clock(k));
      ArmKeepsExactIff(e, i, initial, clock(k));
      match Arm(e, i, initial, clock(k))
      case Skip => ScanKeepsExactIff(e, initial, clock, k + 1, found);
      case NotYet(until) => ScanKeepsExactIff(e, initial, clock, k + 1, found.(next := Earliest(found.next, until)));
      case WakeAndGoOn(e1, id) =>
        var found1 := found.(suitable := Some(i), relock := Some(id));
        ScanKeepsExactIff(e1, initial, clock, k + 1, found1);
        ArmIs(e, i, initial, clock(k));
      case _ =>
    }
  }

  /** Switching and relocking after the scan change no semaphore and no wait for one. */
  lemma {:induction false} DecideKeepsExactIff(e: Env, initial: ThreadId, clock: Clock)
    requires e.current < |e.threads| && Exact(e) && !Decide(e, initial, clock).Stop?
    ensures Exact(Decide(e, initial, clock).env) <==> !OtherWaiter(e, Decide(e, initial, clock).env.current)
  {
    hide Exact;
    ScanWakes(e, initial, clock, 0, NothingFound);
    ScanKeepsExactIff(e, initial, clock, 0, NothingFound);
    var r := Scan(e, initial, clock, 0, NothingFound);
    var d := Decide(e, initial, clock).env;
    if r.Picked? {
      PickKeepsWaits(r.env, r.thread, r.relock);
      SameWaiting(r.env, d);
    } else if r.ReturnTo? {
      ReturnKeepsWaits(r.env, r.thread);
      SameWaiting(r.env, d);
      assert SameOrWoken(e.threads[r.thread], r.env.threads[r.thread]);
    }
  }

  predicate SameWaits(a: Env, b: Env) {
    b.sems == a.sems && |b.threads| == |a.threads| &&
    forall t :: 0 <= t < |a.threads| ==>
      a.threads[t].blockedBy == b.threads[t].blockedBy ||
        (!a.threads[t].blockedBy.OnSemaphore? && !b.threads[t].blockedBy.OnSemaphore?)
  }

  lemma PickKeepsWaits(e1: Env, i: ThreadId, relock: Option<MutexId>)
    requires e1.current < |e1.threads| && i < |e1.threads|
    requires i != e1.current ==> SwitchThread(e1, i).Fine?
    ensures var e2 := if i != e1.current then SwitchThread(e1, i).env else e1;
            && e2.current == i && SameWaits(e1, e2)
            && (relock.Some? && RelockMutex(e2, relock.value).Fine? ==>
                  SameWaits(e1, RelockMutex(e2, relock.value).env) && RelockMutex(e2, relock.value).env.current == i)
  {
    var e2 := if i != e1.current then SwitchThread(e1, i).env else e1;
    if relock.Some? && RelockMutex(e2, relock.value).Fine? { RelockIs(e2, relock.value); }
  }

  lemma ReturnKeepsWaits(e1: Env, i: ThreadId)
    requires e1.current < |e1.threads| && i < |e1.threads| && e1.threads[i].blockedBy.DeferredReturn?
    requires SwitchThread(Unblock(e1, i), i).Fine?
    ensures SameWaits(e1, SwitchThread(Unblock(e1, i), i).env) && SwitchThread(Unblock(e1, i), i).env.current == i
  {
  }

  // ---------------------------------------------------------------- every step, every run

  /** The decision resumes a thread that waited for a semaphore and is not the one that ran last. */
  predicate WakesOther(m: Machine, e: Event)
    requires m.env.current < |m.env.threads|
  {
    e.Schedule? && !Step(m, e).phase.Stopped? && OtherWaiter(m.env, Step(m, e).env.current)
  }

  lemma ScheduleKeepsExactIff(m: Machine, clock: Clock)
    requires Inv(m) && m.phase.Deciding? && Exact(m.env) && !Step(m, Schedule(clock)).phase.Stopped?
    ensures Exact(Step(m, Schedule(clock)).env) <==> !WakesOther(m, Schedule(clock))
  {
    hide Exact, Decide, OtherWaiter;
    var initial := Top(m.frames).initial;
    DecideKeepsExactIff(m.env, initial, clock);
    var d := Decide(m.env, initial, clock);
    if d.ReturnToCaller? {
      SameWaiting(d.env, Step(m, Schedule(clock)).env);
    }
  }

  /** Only the current thread may change its wait, and not to or from a semaphore; new threads wait for nothing. */
  lemma ExactMoves(a: Env, b: Env)
    requires Exact(a) && HostMoves(a, b) && b.sems == a.sems
    requires var x, y := a.threads[a.current].blockedBy, b.threads[a.current].blockedBy;
             x == y || (!x.OnSemaphore? && !y.OnSemaphore?)
    ensures Exact(b)
  {
    forall s: nat ensures WaitingExact(b, s) {
      assert WaitingExact(a, s);
    }
  }

  lemma InitKeepsExact(e: Env, s: nat, value: u32)
    requires Exact(e)
    ensures Exact(SemInit(e, s, value))
  {
    forall u: nat ensures WaitingExact(SemInit(e, s, value), u) { assert WaitingExact(e, u); }
  }

  lemma PostKeepsExact(e: Env, s: nat)
    requires Exact(e) && SemIncrement(e, s).Fine?
    ensures Exact(SemIncrement(e, s).env)
  {
    forall u: nat ensures WaitingExact(SemIncrement(e, s).env, u) { assert WaitingExact(e, u); }
  }

  lemma WaitKeepsExact(e: Env, s: nat, wait: bool)
    requires Exact(e) && e.current < |e.threads| && SemDecrement(e, s, wait).Fine?
    ensures Exact(SemDecrement(e, s, wait).env)
  {
    forall u: nat ensures WaitingExact(SemDecrement(e, s, wait).env, u) { assert WaitingExact(e, u); }
  }

  /** Destroying a semaphore empties its set: right exactly if no thread is blocked on it. */
  lemma DestroyKeepsExactIff(e: Env, s: nat)
    requires Exact(e)
    ensures Exact(SemDestroy(e, s).env) <==> !Awaited(e, s)
  {
    var n := SemDestroy(e, s).env;
    if Awaited(e, s) {
      var t :| Awaits(e, t, s);
      assert !WaitingExact(n, s) by { assert t !in SetOf(n, s); }
    } else {
      forall u: nat ensures WaitingExact(n, u) {
        assert WaitingExact(e, u);
        forall t: ThreadId | t < |e.threads| && u == s ensures e.threads[t].blockedBy != OnSemaphore(s) {
          assert !Awaits(e, t, s);
        }
      }
    }
  }

  lemma SemaphoreEventKeepsExactIff(m: Machine, e: Event)
    requires m.env.current < |m.env.threads| && SemaphoreEvent(e) && Exact(m.env)
    ensures Exact(HostStep(m, e).env) <==> !DestroysAwaited(m, e)
  {
    hide Exact, Awaited, SemInit, SemIncrement, SemDecrement;
    match e
    case SemaphoreInit(s, value) => InitKeepsExact(m.env, s, value);
    case SemaphoreDestroy(s) => DestroyKeepsExactIff(m.env, s);
    case SemaphorePost(s) => if SemIncrement(m.env, s).Fine? { PostKeepsExact(m.env, s); }
    case SemaphoreWait(s, wait) => if SemDecrement(m.env, s, wait).Fine? { WaitKeepsExact(m.env, s, wait); }
  }

  lemma HostEventKeepsExactIff(m: Machine, e: Event)
    requires Inv(m) && m.phase.Host? && HostEvent(e) && Exact(m.env) && !Step(m, e).phase.Stopped?
    ensures Exact(Step(m, e).env) <==> !DestroysAwaited(m, e)
  {
    hide Exact, Awaited;
    assert ThreadOk(m, m.env.current);
    if SemaphoreEvent(e) {
      SemaphoreEventKeepsExactIff(m, e);
    } else {
      if e.Create? {
        CreateMoves(m.env, e.start, e.userData, e.size, e.base);
      } else if MutexEvent(e) {
        MutexEventMoves(m, e);
      } else if StackEvent(e) {
        StackEventMoves(m, e);
      } else {
        OtherHostEventMoves(m, e);
      }
      ExactMoves(m.env, Step(m, e).env);
    }
  }

  /** The event leaves a set behind that is not that of the threads blocked on a semaphore. */
  ghost predicate SpoilsSet(m: Machine, e: Event)
    requires m.env.current < |m.env.threads|
  {
    WakesOther(m, e) || DestroysAwaited(m, e)
  }

  lemma StepKeepsExactIff(m: Machine, e: Event)
    requires Inv(m) && Enabled(m, e) && Exact(m.env) && !Step(m, e).phase.Stopped?
    ensures Exact(Step(m, e).env) <==> !SpoilsSet(m, e)
  {
    hide Exact;
    if e.Schedule? {
      ScheduleKeepsExactIff(m, e.clock);
    } else if HostEvent(e) {
      HostEventKeepsExactIff(m, e);
    } else {
      GuestStepMoves(m, e);
      ExactMoves(m.env, Step(m, e).env);
    }
  }

  /** In every state of the run the sets are exact. */
  ghost predicate ExactThroughout(m: Machine, es: seq<Event>)
    decreases |es|
  {
    (m.phase.Stopped? || Exact(m.env)) &&
    (es == [] || m.env.current >= |m.env.threads| || ExactThroughout(Step(m, es[0]), es[1..]))
  }

  ghost predicate NeverSpoilsSet(m: Machine, es: seq<Event>)
    decreases |es|
  {
    es == [] || m.env.current >= |m.env.threads| || (!SpoilsSet(m, es[0]) && NeverSpoilsSet(Step(m, es[0]), es[1..]))
  }

  /**
   Over every run, the sets stay exact if and only if each thread woken from a semaphore is the one
   that ran last, and no semaphore is destroyed that a thread is blocked on.
   */
  lemma {:induction false} SetsStayExactIff(m: Machine, es: seq<Event>)
    requires Inv(m) && Legal(m, es) && Exact(m.env)
    ensures ExactThroughout(m, es) <==> NeverSpoilsSet(m, es)
    decreases |es|
  {
    hide Exact, SpoilsSet, Step;
    if es != [] {
      StepKeeps(m, es[0]);
      var n := Step(m, es[0]);
      if n.phase.Stopped? {
        assert es[1..] == [];
        assert !SpoilsSet(m, es[0]) by { StoppedSpoilsNothing(m, es[0]); }
      } else {
        StepKeepsExactIff(m, es[0]);
        if !SpoilsSet(m, es[0]) { SetsStayExactIff(n, es[1..]); }
      }
    }
  }

  lemma StoppedSpoilsNothing(m: Machine, e: Event)
    requires !m.phase.Stopped? && m.env.current < |m.env.threads| && Step(m, e).phase.Stopped?
    ensures !SpoilsSet(m, e)
  {
  }

  // ---------------------------------------------------------------- a run in which it goes wrong

  function Pair(b1: Block, current: ThreadId, value: int, waiting: set<ThreadId>): Situation {
    Situation([NotBlocked, b1], current, map[], 0, map[SEM := Sem(value, waiting)], map[])
  }

  /** Thread 0 makes a semaphore and a thread, which waits for it. */
  function OneQueues(clock: Clock): seq<Event> {
    [RunRoot] + Calls(SemaphoreInit(SEM, 0)) + Calls(CreateNext(1)) + Yield(clock) + Calls(SemaphoreWait(SEM, true)) +
      [Schedule(clock)]
  }

  /** Then thread 0 posts it. */
  function StaleRun(clock: Clock): seq<Event> { OneQueues(clock) + Calls(SemaphorePost(SEM)) + [TimeSliceOver] }

  lemma QueuesOnSemaphore()
    ensures var s, t := Pair(NotBlocked, 1, 0, {}), Pair(OnSemaphore(SEM), 1, 0, {1});
            Enabled(World(s, Host), SemaphoreWait(SEM, true)) &&
              Step(World(s, Host), SemaphoreWait(SEM, true)) == World(t, Host)
  {
    var s, t := Pair(NotBlocked, 1, 0, {}), Pair(OnSemaphore(SEM), 1, 0, {1});
    var e := SemDecrement(World(s, Host).env, SEM, true).env;
    assert s.sems[SEM].waiting + {1} == {1};
    assert e.sems == t.sems;
    assert e.threads == World(t, Host).env.threads;
  }

  lemma Posts()
    ensures var s, t := Pair(OnSemaphore(SEM), 0, 0, {1}), Pair(OnSemaphore(SEM), 0, 1, {1});
            Enabled(World(s, Host), SemaphorePost(SEM)) && Step(World(s, Host), SemaphorePost(SEM)) == World(t, Host)
  {
    var s, t := Pair(OnSemaphore(SEM), 0, 0, {1}), Pair(OnSemaphore(SEM), 0, 1, {1});
    assert SemIncrement(World(s, Host).env, SEM).env.sems == t.sems;
    assert World(s, Host).env.threads == World(t, Host).env.threads;
  }

  lemma {:induction false} ReachesQueued(clock: Clock)
    ensures Leads(Start(FreshContext, 0, 0), OneQueues(clock), World(Pair(OnSemaphore(SEM), 0, 0, {1}), Guest))
  {
    hide Leads, Step, World, Enabled, Offers, Yield, Calls;
    var m := Start(FreshContext, 0, 0);
    var s1 := OneSemaphore(0);
    Begins();
    MakesSemaphore(0);
    CallsHost(Alone, SemaphoreInit(SEM, 0), s1);
    Follows(m, [RunRoot], World(Alone, Guest), Calls(SemaphoreInit(SEM, 0)), World(s1, Guest));
    var es := [RunRoot] + Calls(SemaphoreInit(SEM, 0));
    var s2, s3 := Pair(NotBlocked, 0, 0, {}), Pair(NotBlocked, 1, 0, {});
    CreatesNext(s1);
    assert s1.blocks + [NotBlocked] == s2.blocks;
    Follows(m, es, World(s1, Guest), Calls(CreateNext(1)), World(s2, Guest));
    es := es + Calls(CreateNext(1));
    Yields(s2, clock, 0, 1);
    Follows(m, es, World(s2, Guest), Yield(clock), World(s3, Guest));
    es := es + Yield(clock);
    QueuesOnSemaphore();
    var s4, s5 := Pair(OnSemaphore(SEM), 1, 0, {1}), Pair(OnSemaphore(SEM), 0, 0, {1});
    CallsHost(s3, SemaphoreWait(SEM, true), s4);
    Follows(m, es, World(s3, Guest), Calls(SemaphoreWait(SEM, true)), World(s4, Deciding));
    es := es + Calls(SemaphoreWait(SEM, true));
    Turns(s4, clock, 0, 0);
    Follows(m, es, World(s4, Deciding), [Schedule(clock)], World(s5, Guest));
  }

  lemma {:induction false} ReachesPosted(clock: Clock)
    ensures Leads(Start(FreshContext, 0, 0), StaleRun(clock), World(Pair(OnSemaphore(SEM), 0, 1, {1}), Deciding))
  {
    hide Leads, Step, World, Enabled, OneQueues, Calls;
    var m := Start(FreshContext, 0, 0);
    var s5, s6 := Pair(OnSemaphore(SEM), 0, 0, {1}), Pair(OnSemaphore(SEM), 0, 1, {1});
    ReachesQueued(clock);
    Posts();
    CallsHost(s5, SemaphorePost(SEM), s6);
    Follows(m, OneQueues(clock), World(s5, Guest), Calls(SemaphorePost(SEM)), World(s6, Guest));
    YieldsSlice(s6);
    Follows(m, OneQueues(clock) + Calls(SemaphorePost(SEM)), World(s6, Guest), [TimeSliceOver], World(s6, Deciding));
  }

  /** The scan wakes thread 1, and leaves it in the set. */
  lemma {:induction false} WakesOne(clock: Clock)
    ensures var s := Pair(OnSemaphore(SEM), 0, 1, {1}); var n := Step(World(s, Deciding), Schedule(clock));
            && !n.phase.Stopped? && n.env.current == 1 && |n.env.threads| == 2 &&
               n.env.threads[1].blockedBy == NotBlocked
            && SEM in n.env.sems && n.env.sems[SEM] == Sem(0, {1})
  {
    var e := World(Pair(OnSemaphore(SEM), 0, 1, {1}), Deciding).env;
    assert Candidate(e, 0) == 1;
    var r := Arm(e, 1, 0, clock(0));
    assert r.Wake?;
    assert r.env.sems[SEM] == Sem(0, {1});
    assert Scan(e, 0, clock, 0, NothingFound) == Picked(r.env, 1, None);
    SwitchIs(r.env, 1);
  }

  /** A run from the start that leaves thread 1 in the set of the semaphore it no longer waits for. */
  lemma {:induction false} WaitingSetGoesStale(clock: Clock)
    ensures var es := StaleRun(clock) + [Schedule(clock)];
            && Legal(Start(FreshContext, 0, 0), es)
            && var e := Run(Start(FreshContext, 0, 0), es).env;
               && SEM in e.sems && 1 in e.sems[SEM].waiting && |e.threads| == 2 && e.threads[1].blockedBy == NotBlocked
               && !WaitingExact(e, SEM)
  {
    hide StaleRun, Leads, Step, World;
    var start := Start(FreshContext, 0, 0);
    var m := World(Pair(OnSemaphore(SEM), 0, 1, {1}), Deciding);
    ReachesPosted(clock);
    WakesOne(clock);
    DecidingIsOpen(Pair(OnSemaphore(SEM), 0, 1, {1}), clock);
    var n := Step(m, Schedule(clock));
    OneStep(m, Schedule(clock));
    Follows(start, StaleRun(clock), m, [Schedule(clock)], n);
    LeadsIs(start, StaleRun(clock) + [Schedule(clock)], n);
  }

  // ---------------------------------------------------------------- runs that destroy a semaphore

  /** Thread 1 waits for a semaphore; thread 0 destroys it. */
  function DestroyingRun(clock: Clock): seq<Event> { OneQueues(clock) + Calls(SemaphoreDestroy(SEM)) }

  /** Thread 1 waits for nothing that exists. */
  const Orphaned: Situation := Situation([NotBlocked, OnSemaphore(SEM)], 0, map[], 0, map[], map[])

  lemma DestroysSemaphore()
    ensures var s := Pair(OnSemaphore(SEM), 0, 0, {1});
            Enabled(World(s, Host), SemaphoreDestroy(SEM)) &&
              Step(World(s, Host), SemaphoreDestroy(SEM)) == World(Orphaned, Host)
  {
    var s := Pair(OnSemaphore(SEM), 0, 0, {1});
    assert SemDestroy(World(s, Host).env, SEM).env.sems == map[];
    assert World(s, Host).env.threads == World(Orphaned, Host).env.threads;
  }

  lemma {:induction false} ReachesOrphaned(clock: Clock)
    ensures Leads(Start(FreshContext, 0, 0), DestroyingRun(clock), World(Orphaned, Guest))
  {
    hide Leads, Step, World, Enabled, OneQueues, Calls;
    var s := Pair(OnSemaphore(SEM), 0, 0, {1});
    ReachesQueued(clock);
    DestroysSemaphore();
    CallsHost(s, SemaphoreDestroy(SEM), Orphaned);
    Follows(Start(FreshContext, 0, 0), OneQueues(clock), World(s, Guest), Calls(SemaphoreDestroy(SEM)),
      World(Orphaned, Guest));
  }

  lemma {:induction false} OrphanPanics(clock: Clock)
    ensures Step(World(Orphaned, Deciding), Schedule(clock)).phase == Stopped(WaitedSemaphoreMissing)
  {
    var e := World(Orphaned, Deciding).env;
    assert Candidate(e, 0) == 1;
    assert Arm(e, 1, 0, clock(0)) == ArmPanic(WaitedSemaphoreMissing);
    assert Scan(e, 0, clock, 0, NothingFound) == ScanPanic(WaitedSemaphoreMissing);
  }

  /** A run from the start in which the scan panics: `sem_destroy` does not look for threads that wait. */
  lemma {:induction false} DestroyedSemaphorePanics(clock: Clock)
    ensures var es := DestroyingRun(clock) + [TimeSliceOver] + [Schedule(clock)];
            && Legal(Start(FreshContext, 0, 0), es)
            && Run(Start(FreshContext, 0, 0), es).phase == Stopped(WaitedSemaphoreMissing)
  {
    hide DestroyingRun, Leads, Step, World;
    var start, m := Start(FreshContext, 0, 0), World(Orphaned, Deciding);
    var es := DestroyingRun(clock) + [TimeSliceOver];
    ReachesOrphaned(clock);
    YieldsSlice(Orphaned);
    Follows(start, DestroyingRun(clock), World(Orphaned, Guest), [TimeSliceOver], m);
    DecidingIsOpen(Orphaned, clock);
    OneStep(m, Schedule(clock));
    OrphanPanics(clock);
    Follows(start, es, m, [Schedule(clock)], Step(m, Schedule(clock)));
    LeadsIs(start, es + [Schedule(clock)], Step(m, Schedule(clock)));
  }

  lemma MakesItAgain(value: u32)
    ensures Enabled(World(Orphaned, Host), SemaphoreInit(SEM, value))
    ensures Step(World(Orphaned, Host), SemaphoreInit(SEM, value)) ==
            World(Pair(OnSemaphore(SEM), 0, AsI32(value), {}), Host)
  {
    assert World(Orphaned, Host).env.threads == World(Pair(OnSemaphore(SEM), 0, AsI32(value), {}), Host).env.threads;
  }

  /**
   A run from the start after which a semaphore that was destroyed and made again misses its waiter,
   nobody having been woken.
   */
  lemma {:induction false} RecreatedSetIsEmpty(clock: Clock, value: u32)
    ensures var es := DestroyingRun(clock) + Calls(SemaphoreInit(SEM, value));
            && Legal(Start(FreshContext, 0, 0), es)
            && var e := Run(Start(FreshContext, 0, 0), es).env;
               SEM in e.sems && e.sems[SEM].waiting == {} && Awaits(e, 1, SEM) && !WaitingExact(e, SEM)
  {
    hide DestroyingRun, Leads, Step, Enabled, Calls;
    var start, s := Start(FreshContext, 0, 0), Pair(OnSemaphore(SEM), 0, AsI32(value), {});
    ReachesOrphaned(clock);
    MakesItAgain(value);
    CallsHost(Orphaned, SemaphoreInit(SEM, value), s);
    Follows(start, DestroyingRun(clock), World(Orphaned, Guest), Calls(SemaphoreInit(SEM, value)), World(s, Guest));
    LeadsIs(start, DestroyingRun(clock) + Calls(SemaphoreInit(SEM, value)), World(s, Guest));
    var e := World(s, Guest).env;
    assert Awaits(e, 1, SEM) && 1 !in SetOf(e, SEM);
  }
}
