/** When a semaphore's value can be negative (src/environment.rs:773-836, 1157-1179, src/libc/semaphore.rs:47-66). */
module SemaphoreRuns {
  import opened Prelude
  import opened Threads
  import opened Scheduler
  import opened Runs
  import opened RunInvariant
  import opened Waiters
  import opened Scenarios

  predicate NonNegative(sems: map<nat, Sem>) {
    forall s :: s in sems ==> sems[s].value >= 0
  }

  lemma ArmKeepsNonNegative(e: Env, i: ThreadId, initial: ThreadId, now: int)
    requires i < |e.threads| && NonNegative(e.sems)
    ensures var r := Arm(e, i, initial, now); r.Wake? || r.WakeAndGoOn? ==> NonNegative(r.env.sems)
  {
  }

  lemma {:induction false} ScanKeepsNonNegative(e: Env, initial: ThreadId, clock: Clock, k: nat, found: Found)
    requires 0 < |e.threads| && k <= |e.threads| && NonNegative(e.sems)
    ensures var r := Scan(e, initial, clock, k, found); r.ScanPanic? || NonNegative(r.env.sems)
    decreases |e.threads| - k
  {
    if k < |e.threads| {
      var i := Candidate(e, k);
      ArmKeepsNonNegative(e, i, initial, clock(k));
      ArmWakes(e, i, initial, clock(k));
      match Arm(e, i, initial, clock(k))
      case Skip => ScanKeepsNonNegative(e, initial, clock, k + 1, found);
      case NotYet(until) => ScanKeepsNonNegative(e, initial, clock, k + 1, found.(next := Earliest(found.next, until)));
      case WakeAndGoOn(e1, id) =>
        ScanKeepsNonNegative(e1, initial, clock, k + 1, found.(suitable := Some(i), relock := Some(id)));
      case _ =>
    }
  }

  /** After the scan, a decision touches no semaphore. */
  lemma DecideKeepsScannedSems(e: Env, initial: ThreadId, clock: Clock)
    requires e.current < |e.threads| && !Decide(e, initial, clock).Stop?
    ensures Decide(e, initial, clock).env.sems == Scan(e, initial, clock, 0, NothingFound).env.sems
  {
    ScanWakes(e, initial, clock, 0, NothingFound);
    var r := Scan(e, initial, clock, 0, NothingFound);
    if r.Picked? {
      if r.thread != r.env.current { SwitchIs(r.env, r.thread); }
      var e2 := if r.thread != r.env.current then SwitchThread(r.env, r.thread).env else r.env;
      if r.relock.Some? { RelockIs(e2, r.relock.value); }
    } else if r.ReturnTo? {
      SwitchIs(Unblock(r.env, r.thread), r.thread);
    }
  }

  /** The event makes a semaphore from a number that turns negative when cast (src/libc/semaphore.rs:58). */
  predicate CreatesNegative(m: Machine, e: Event) {
    e.SemaphoreInit? && e.sem !in m.env.sems && e.initialValue > I32_MAX
  }

  /** The event creates a semaphore from 2^31 or more, or posts one whose value is 2^31-1. */
  predicate TurnsNegative(m: Machine, e: Event) {
    CreatesNegative(m, e) || (e.SemaphorePost? && Wraps(m, e, e.sem))
  }

  lemma StepKeepsNonNegative(m: Machine, e: Event)
    requires Inv(m) && Enabled(m, e) && NonNegative(m.env.sems) && !Step(m, e).phase.Stopped?
    ensures NonNegative(Step(m, e).env.sems) <==> !TurnsNegative(m, e)
  {
    hide HostStep, Scan, StacksOk;
    if e.Schedule? {
      ScanKeepsNonNegative(m.env, Top(m.frames).initial, e.clock, 0, NothingFound);
      DecideKeepsScannedSems(m.env, Top(m.frames).initial, e.clock);
    } else if HostEvent(e) {
      assert ThreadOk(m, m.env.current);
      HostEventKeepsNonNegative(m, e);
    } else {
      GuestStepMoves(m, e);
    }
  }

  lemma HostEventKeepsNonNegative(m: Machine, e: Event)
    requires m.env.current < |m.env.threads| && m.env.threads[m.env.current].context.None?
    requires HostEvent(e) && NonNegative(m.env.sems) && !HostStep(m, e).phase.Stopped?
    ensures NonNegative(HostStep(m, e).env.sems) <==> !TurnsNegative(m, e)
  {
    if MutexEvent(e) {
      MutexEventMoves(m, e);
    } else if e.Create? {
      CreateMoves(m.env, e.start, e.userData, e.size, e.base);
    } else if SemaphoreEvent(e) {
      if TurnsNegative(m, e) { assert HostStep(m, e).env.sems[e.sem].value < 0; }
    } else if StackEvent(e) {
      StackEventMoves(m, e);
    } else {
      OtherHostEventMoves(m, e);
    }
  }

  /** In no state of the run is a semaphore's value negative. */
  ghost predicate NeverNegative(m: Machine, es: seq<Event>)
    decreases |es|
  {
    (m.phase.Stopped? || NonNegative(m.env.sems)) &&
    (es == [] || m.env.current >= |m.env.threads| || NeverNegative(Step(m, es[0]), es[1..]))
  }

  /** No event of the run creates a semaphore from 2^31 or more, and no post finds a value of 2^31-1. */
  ghost predicate NoneTurnsNegative(m: Machine, es: seq<Event>)
    decreases |es|
  {
    es == [] || m.env.current >= |m.env.threads| ||
    (!TurnsNegative(m, es[0]) && NoneTurnsNegative(Step(m, es[0]), es[1..]))
  }

  /** Over every run, no value is ever negative if and only if no creation and no post makes one so. */
  lemma {:induction false} ValuesNeverNegativeIff(m: Machine, es: seq<Event>)
    requires Inv(m) && Legal(m, es) && NonNegative(m.env.sems)
    ensures NeverNegative(m, es) <==> NoneTurnsNegative(m, es)
    decreases |es|
  {
    hide TurnsNegative;
    if es != [] {
      StepKeeps(m, es[0]);
      var n := Step(m, es[0]);
      if n.phase.Stopped? {
        assert es[1..] == [];
        assert !TurnsNegative(m, es[0]) by { StopsWithoutTurning(m, es[0]); }
      } else {
        StepKeepsNonNegative(m, es[0]);
        if !TurnsNegative(m, es[0]) { ValuesNeverNegativeIff(n, es[1..]); }
      }
    }
  }

  lemma StopsWithoutTurning(m: Machine, e: Event)
    requires !m.phase.Stopped? && m.env.current < |m.env.threads| && Step(m, e).phase.Stopped?
    ensures !TurnsNegative(m, e)
  {
  }

  // ---------------------------------------------------------------- runs in which values turn negative

  function OneSemaphore(value: int): Situation { Alone.(sems := map[SEM := Sem(value, {})]) }

  lemma MakesSemaphore(v: u32)
    ensures Enabled(World(Alone, Host), SemaphoreInit(SEM, v))
    ensures Step(World(Alone, Host), SemaphoreInit(SEM, v)) == World(OneSemaphore(AsI32(v)), Host)
  {
  }

  lemma PostsSemaphore(value: int)
    ensures Enabled(World(OneSemaphore(value), Host), SemaphorePost(SEM))
    ensures Step(World(OneSemaphore(value), Host), SemaphorePost(SEM)) == World(OneSemaphore(WrappingNext(value)), Host)
  {
    var s, t := OneSemaphore(value), OneSemaphore(WrappingNext(value));
    assert SemIncrement(World(s, Host).env, SEM).env.sems == t.sems;
    assert World(s, Host).env.threads == World(t, Host).env.threads;
  }

  /** A semaphore is created from `v`, and posted once. */
  function PostedOnce(v: u32): seq<Event> {
    [RunRoot] + Calls(SemaphoreInit(SEM, v)) + Calls(SemaphorePost(SEM))
  }

  /** From the start, for every number: from 2^31-1 the post makes the value negative, from 2^31 on it was so before. */
  lemma {:induction false} PostedOnceIs(v: u32)
    ensures Legal(Start(FreshContext, 0, 0), PostedOnce(v))
    ensures var sems := Run(Start(FreshContext, 0, 0), PostedOnce(v)).env.sems;
            SEM in sems && sems[SEM].value == (if v < 0x7fff_ffff then v + 1 else v + 1 - TWO32)
  {
    hide Leads, Step, World, Enabled, Calls;
    var m := Start(FreshContext, 0, 0);
    var s, t := OneSemaphore(AsI32(v)), OneSemaphore(WrappingNext(AsI32(v)));
    Begins();
    MakesSemaphore(v);
    CallsHost(Alone, SemaphoreInit(SEM, v), s);
    Follows(m, [RunRoot], World(Alone, Guest), Calls(SemaphoreInit(SEM, v)), World(s, Guest));
    PostsSemaphore(AsI32(v));
    CallsHost(s, SemaphorePost(SEM), t);
    var es := [RunRoot] + Calls(SemaphoreInit(SEM, v));
    Follows(m, es, World(s, Guest), Calls(SemaphorePost(SEM)), World(t, Guest));
    LeadsIs(m, PostedOnce(v), World(t, Guest));
    WorldHas(t);
  }

  lemma WorldHas(s: Situation)
    requires Small(s)
    ensures World(s, Guest).env.sems == s.sems
  {
  }
}
