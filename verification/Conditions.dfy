/**
 The condition-variable arm of the scan (src/environment.rs:1180-1201, 1240-1247). It records the
 woken waiter and its mutex without ending the scan, so a later candidate can take its place while
 the mutex to relock stays recorded. Here is exactly when the waiter does get its mutex, what
 happens to waiter and mutex when it does not, and a run in which another thread gets it instead.
 */
module Conditions {
  import opened Prelude
  import opened Threads
  import opened Scheduler
  import opened Runs
  import opened RunInvariant
  import opened Waiters
  import opened Fairness
  import opened Scenarios
  import opened Needs

  /** No candidate from the j-th on has anything to offer to this scan. */
  ghost predicate QuietFrom(e: Env, initial: ThreadId, clock: Clock, j: nat)
    requires 0 < |e.threads|
  {
    forall i :: j <= i < |e.threads| ==>
      Arm(e, Candidate(e, i), initial, clock(i)).Skip? || Arm(e, Candidate(e, i), initial, clock(i)).NotYet?
  }

  lemma {:induction false} QuietScan(e: Env, initial: ThreadId, clock: Clock, k: nat, found: Found)
    requires 0 < |e.threads| && k <= |e.threads| && found.suitable.Some? && QuietFrom(e, initial, clock, k)
    ensures Scan(e, initial, clock, k, found) == Picked(e, found.suitable.value, found.relock)
    decreases |e.threads| - k
  {
    if k < |e.threads| {
      var r := Arm(e, Candidate(e, k), initial, clock(k));
      QuietScan(e, initial, clock, k + 1, if r.NotYet? then found.(next := Earliest(found.next, r.until)) else found);
    }
  }

  /** `t` is the thread found already, or one the scan reaches at or after `k`. */
  predicate FoundOrLater(e: Env, t: ThreadId, k: nat, found: Found) {
    (found.suitable == Some(t)) ||
      (e.current < |e.threads| && t < |e.threads| && Distance(e.current, t, |e.threads|) > k)
  }

  lemma {:induction false} ScanPicksFoundOrLater(e: Env, initial: ThreadId, clock: Clock, k: nat, found: Found)
    requires e.current < |e.threads| && k <= |e.threads|
    ensures var r := Scan(e, initial, clock, k, found); r.Picked? ==> FoundOrLater(e, r.thread, k, found)
    decreases |e.threads| - k
  {
    hide Arm, Candidate, Runnable;
    if k < |e.threads| {
      var i := Candidate(e, k);
      CandidateDistance(e, k, e.current);
      ArmWakes(e, i, initial, clock(k));
      match Arm(e, i, initial, clock(k))
      case Skip => ScanPicksFoundOrLater(e, initial, clock, k + 1, found);
      case NotYet(until) => ScanPicksFoundOrLater(e, initial, clock, k + 1,
        found.(next := Earliest(found.next, until)));
      case WakeAndGoOn(e1, id) =>
        ScanPicksFoundOrLater(e1, initial, clock, k + 1, found.(suitable := Some(i), relock := Some(id)));
      case _ =>
    }
  }

  /** If some later candidate is not quiet, the scan does not end with the thread found so far. */
  lemma {:induction false} NoisyScan(e: Env, initial: ThreadId, clock: Clock, k: nat, found: Found, t: ThreadId)
    requires e.current < |e.threads| && k <= |e.threads| && found.suitable == Some(t) &&
             !QuietFrom(e, initial, clock, k)
    requires t < |e.threads| && Distance(e.current, t, |e.threads|) <= k
    ensures var r := Scan(e, initial, clock, k, found); r.Picked? ==> r.thread != t
    decreases |e.threads| - k
  {
    var i := Candidate(e, k);
    CandidateDistance(e, k, t);
    ArmWakes(e, i, initial, clock(k));
    match Arm(e, i, initial, clock(k))
    case Skip => NoisyScan(e, initial, clock, k + 1, found, t);
    case NotYet(until) => NoisyScan(e, initial, clock, k + 1, found.(next := Earliest(found.next, until)), t);
    case WakeAndGoOn(e1, id) =>
      ScanPicksFoundOrLater(e1, initial, clock, k + 1, found.(suitable := Some(i), relock := Some(id)));
    case _ =>
  }

  /** The scan picks `t` if and only if `quiet`, and then with the mutex `t` was woken for. */
  predicate WaiterGoesOnIff(quiet: bool, r: ScanResult, e1: Env, t: ThreadId, id: MutexId) {
    (r.Picked? && r.thread == t <==> quiet) && (quiet ==> r == Picked(e1, t, Some(id)))
  }

  lemma GoesOnIff(e1: Env, initial: ThreadId, clock: Clock, k: nat, found: Found)
    requires e1.current < |e1.threads| && k <= |e1.threads| && found.suitable.Some? && found.relock.Some?
    requires found.suitable.value < |e1.threads| && Distance(e1.current, found.suitable.value, |e1.threads|) <= k
    ensures WaiterGoesOnIff(QuietFrom(e1, initial, clock, k), Scan(e1, initial, clock, k, found), e1,
            found.suitable.value, found.relock.value)
  {
    if QuietFrom(e1, initial, clock, k) {
      QuietScan(e1, initial, clock, k, found);
    } else {
      NoisyScan(e1, initial, clock, k, found, found.suitable.value);
    }
  }

  // ---------------------------------------------------------------- where in the scan a waiter is woken

  /** How an iteration for candidate `i` goes on, if it does. */
  function Goes(f: Env, i: ThreadId, r: ArmResult, found: Found): Option<(Env, Found)> {
    match r
    case Skip => Some((f, found))
    case NotYet(until) => Some((f, found.(next := Earliest(found.next, until))))
    case WakeAndGoOn(f1, id) => Some((f1, found.(suitable := Some(i), relock := Some(id))))
    case _ => None
  }

  /** The state and variables with which the scan comes to its k-th candidate; None if it ends before. */
  function Arrival(e: Env, initial: ThreadId, clock: Clock, k: nat): (r: Option<(Env, Found)>)
    requires 0 < |e.threads| && k <= |e.threads|
    ensures r.Some? ==> |r.value.0.threads| == |e.threads|
  {
    if k == 0 then Some((e, NothingFound))
    else
      match Arrival(e, initial, clock, k - 1)
      case None => None
      case Some((f, found)) => Goes(f, Candidate(e, k - 1), Arm(f, Candidate(e, k - 1), initial, clock(k - 1)), found)
  }

  /** What the scan has found so far is runnable, comes earlier in its order, and is to take a free mutex. */
  ghost predicate FoundOk(f: Env, k: nat, found: Found) {
    && (found.suitable.Some? <==> found.relock.Some?)
    && (found.suitable.Some? ==>
          && f.current < |f.threads| && found.suitable.value < |f.threads| && Runnable(f.threads[found.suitable.value])
          && Distance(f.current, found.suitable.value, |f.threads|) <= k
          && !MutexIsLocked(f, found.relock.value))
  }

  lemma ConditionArmFreesMutex(f: Env, i: ThreadId, initial: ThreadId, now: int)
    requires i < |f.threads| && Arm(f, i, initial, now).WakeAndGoOn?
    ensures var r := Arm(f, i, initial, now);
            WokenFrom(f, r.env) && Runnable(r.env.threads[i]) && !MutexIsLocked(r.env, r.mutex)
  {
    ArmWakes(f, i, initial, now);
  }

  /** One iteration of the scan that does not end it. */
  lemma {:induction false} ArrivalStep(f: Env, initial: ThreadId, clock: Clock, k: nat, found: Found, g: Env,
          next: Found)
    requires f.current < |f.threads| && k < |f.threads| && FoundOk(f, k, found)
    requires Goes(f, Candidate(f, k), Arm(f, Candidate(f, k), initial, clock(k)), found) == Some((g, next))
    ensures WokenFrom(f, g) && FoundOk(g, k + 1, next)
    ensures Scan(f, initial, clock, k, found) == Scan(g, initial, clock, k + 1, next)
  {
    hide Arm, Candidate, Runnable;
    CandidateDistance(f, k, f.current);
    var i := Candidate(f, k);
    if Arm(f, i, initial, clock(k)).WakeAndGoOn? {
      ConditionArmFreesMutex(f, i, initial, clock(k));
    } else {
      assert WokenFrom(f, f);
    }
  }

  lemma {:induction false} ArrivalIs(e: Env, initial: ThreadId, clock: Clock, k: nat)
    requires e.current < |e.threads| && k <= |e.threads| && Arrival(e, initial, clock, k).Some?
    ensures var (f, found) := Arrival(e, initial, clock, k).value;
            && WokenFrom(e, f) && FoundOk(f, k, found)
            && Scan(e, initial, clock, 0, NothingFound) == Scan(f, initial, clock, k, found)
    decreases k
  {
    hide Arm, Candidate, Scan, Goes, FoundOk;
    if k == 0 {
      assert WokenFrom(e, e);
      assert FoundOk(e, 0, NothingFound) by { NothingFoundOk(e); }
    } else {
      ArrivalIs(e, initial, clock, k - 1);
      var (f, found) := Arrival(e, initial, clock, k - 1).value;
      var (g, next) := Arrival(e, initial, clock, k).value;
      assert Candidate(f, k - 1) == Candidate(e, k - 1) by { SameCandidates(e, f, k - 1); }
      ArrivalStep(f, initial, clock, k - 1, found, g, next);
      WokenTransitive(e, f, g);
    }
  }

  lemma NothingFoundOk(e: Env)
    ensures FoundOk(e, 0, NothingFound)
  {
  }

  lemma SameCandidates(e: Env, f: Env, k: nat)
    requires 0 < |e.threads| == |f.threads| && e.current == f.current
    ensures Candidate(e, k) == Candidate(f, k)
  {
  }

  /**
   The k-th candidate of the scan is `t`, woken from a condition variable whose mutex is `id`; the
   scan goes on in `f`.
   */
  predicate WokenAt(e: Env, initial: ThreadId, clock: Clock, k: nat, t: ThreadId, id: MutexId, f: Env) {
    && k < |e.threads| && Candidate(e, k) == t && Arrival(e, initial, clock, k).Some?
    && t < |e.threads| && Arm(Arrival(e, initial, clock, k).value.0, t, initial, clock(k)) == WakeAndGoOn(f, id)
  }

  lemma WokenIs(e: Env, initial: ThreadId, clock: Clock, k: nat, t: ThreadId, id: MutexId, f: Env)
    requires e.current < |e.threads| && WokenAt(e, initial, clock, k, t, id, f)
    ensures WokenFrom(e, f) && Runnable(f.threads[t]) && !MutexIsLocked(e, id)
    ensures Distance(f.current, t, |f.threads|) <= k + 1
    ensures Arrival(e, initial, clock, k + 1).Some? && Arrival(e, initial, clock, k + 1).value.0 == f
    ensures var found := Arrival(e, initial, clock, k + 1).value.1;
            && found.suitable == Some(t) && found.relock == Some(id)
            && Scan(e, initial, clock, 0, NothingFound) == Scan(f, initial, clock, k + 1, found)
  {
    hide Arm, Candidate, Scan, WokenFrom, Runnable;
    ArrivalIs(e, initial, clock, k + 1);
    ArrivalIs(e, initial, clock, k);
    SameLocks(e, f, id);
  }

  lemma SameLocks(e: Env, f: Env, id: MutexId)
    requires WokenFrom(e, f)
    ensures MutexIsLocked(e, id) == MutexIsLocked(f, id) && |e.threads| == |f.threads| && e.current == f.current
  {
  }

  // ---------------------------------------------------------------- what becomes of the mutex

  lemma ArmRelocksFree(e: Env, i: ThreadId, initial: ThreadId, now: int)
    requires i < |e.threads|
    ensures var r := Arm(e, i, initial, now);
            && (r.Wake? ==> r.env.mutexes == e.mutexes && (r.relock.Some? ==> !MutexIsLocked(e, r.relock.value)))
            && (r.WakeAndGoOn? ==> r.env.mutexes == e.mutexes && !MutexIsLocked(e, r.mutex))
  {
  }

  /** With a mutex recorded, whatever the rest of the scan picks is given some free mutex. */
  lemma {:induction false} ScanRelocksFree(e: Env, initial: ThreadId, clock: Clock, k: nat, found: Found)
    requires 0 < |e.threads| && k <= |e.threads| && found.relock.Some? && !MutexIsLocked(e, found.relock.value)
    ensures var r := Scan(e, initial, clock, k, found); r.Picked? ==>
            r.relock.Some? && !MutexIsLocked(e, r.relock.value)
    decreases |e.threads| - k
  {
    hide Runnable, Arm;
    if k < |e.threads| {
      var i := Candidate(e, k);
      ArmRelocksFree(e, i, initial, clock(k));
      ArmWakes(e, i, initial, clock(k));
      match Arm(e, i, initial, clock(k))
      case Skip => ScanRelocksFree(e, initial, clock, k + 1, found);
      case NotYet(until) => ScanRelocksFree(e, initial, clock, k + 1, found.(next := Earliest(found.next, until)));
      case WakeAndGoOn(e1, id) =>
        ScanRelocksFree(e1, initial, clock, k + 1, found.(suitable := Some(i), relock := Some(id)));
      case _ =>
    }
  }

  /** Once runnable, a thread is so for the rest of the scan. */
  lemma {:induction false} StaysRunnable(e: Env, initial: ThreadId, clock: Clock, k: nat, found: Found, t: ThreadId)
    requires 0 < |e.threads| && k <= |e.threads| && t < |e.threads| && Runnable(e.threads[t])
    requires found.suitable.Some? ==> found.suitable.value < |e.threads| && Runnable(e.threads[found.suitable.value])
    ensures var r := Scan(e, initial, clock, k, found);
            !r.ScanPanic? ==> |r.env.threads| == |e.threads| && Runnable(r.env.threads[t])
    ensures var r := Scan(e, initial, clock, k, found); r.ReturnTo? ==> r.thread != t
  {
    ScanWakes(e, initial, clock, k, found);
    var r := Scan(e, initial, clock, k, found);
    if !r.ScanPanic? { assert SameOrWoken(e.threads[t], r.env.threads[t]); }
  }

  /** `n` runs thread `t`, which holds mutex `id` once. */
  predicate RunsHolding(n: Machine, t: ThreadId, id: MutexId) {
    !n.phase.Stopped? && n.env.current == t && id in n.env.mutexes && n.env.mutexes[id].locked == Some(Lock(t, 1))
  }

  /**
   The end of a decision for `t` with a free mutex to relock: it holds that mutex, and no other
   mutex or block changes.
   */
  lemma {:induction false} TakesMutex(e: Env, initial: ThreadId, clock: Clock, e1: Env, t: ThreadId, id: MutexId)
    requires e.current < |e.threads| && Scan(e, initial, clock, 0, NothingFound) == Picked(e1, t, Some(id))
    requires e1.current < |e1.threads| && t < |e1.threads| && !MutexIsLocked(e1, id)
    requires e1.threads[e1.current].context.None? && (t != e1.current ==> e1.threads[t].context.Some?)
    ensures var d := Decide(e, initial, clock);
            if id in e1.mutexes then
              && d.Resume? && d.env.current == t && |d.env.threads| == |e1.threads|
              && d.env.mutexes == e1.mutexes[id := Mutex(e1.mutexes[id].kind, d.env.mutexes[id].waitingCount,
                 Some(Lock(t, 1)))]
              && forall u :: 0 <= u < |e1.threads| ==> d.env.threads[u].blockedBy == e1.threads[u].blockedBy
            else d == Stop(RelockFailed)
  {
    hide RelockMutex, Scan, SwitchThread;
    if t != e1.current { SwitchIs(e1, t); }
    var e2 := if t != e1.current then SwitchThread(e1, t).env else e1;
    RelockOfFree(e2, id);
  }

  lemma {:induction false} PickedTakesMutex(m: Machine, clock: Clock, e1: Env, t: ThreadId, id: MutexId)
    requires Inv(m) && m.phase.Deciding? && !MutexIsLocked(m.env, id)
    requires Scan(m.env, Top(m.frames).initial, clock, 0, NothingFound) == Picked(e1, t, Some(id))
    ensures var n := Step(m, Schedule(clock));
            if id in m.env.mutexes then
              && RunsHolding(n, t, id) && n.env.mutexes.Keys == m.env.mutexes.Keys
              && (forall i :: i in n.env.mutexes && i != id ==> n.env.mutexes[i] == m.env.mutexes[i])
              && |n.env.threads| == |e1.threads|
              && forall u :: 0 <= u < |e1.threads| ==> n.env.threads[u].blockedBy == e1.threads[u].blockedBy
            else n.phase == Stopped(RelockFailed)
  {
    hide Decide, Scan, Arm;
    var initial := Top(m.frames).initial;
    ScanWakes(m.env, initial, clock, 0, NothingFound);
    assert ThreadOk(m, m.env.current) && ThreadOk(m, t);
    assert SameOrWoken(m.env.threads[t], e1.threads[t]) &&
      SameOrWoken(m.env.threads[e1.current], e1.threads[e1.current]);
    TakesMutex(m.env, initial, clock, e1, t, id);
  }

  // ---------------------------------------------------------------- the theorem

  /** `t` waits for nothing any more, is not the thread that runs, and does not hold mutex `id`. */
  predicate LeftWithout(n: Machine, t: ThreadId, id: MutexId) {
    && t < |n.env.threads| && n.env.threads[t].blockedBy.NotBlocked? && n.env.current != t
    && (MutexIsLocked(n.env, id) ==> n.env.mutexes[id].locked.value.owner != t)
  }

  /**
   Another thread of the scan holds, once, the mutex recorded last; or the scan ended in a return
   and no mutex was taken.
   */
  ghost predicate PassedOver(m: Machine, n: Machine, clock: Clock, t: ThreadId) {
    m.frames != [] && 0 < |m.env.threads| &&
    match Scan(m.env, Top(m.frames).initial, clock, 0, NothingFound)
    case Picked(_, u, Some(other)) => u != t && RunsHolding(n, u, other) && !MutexIsLocked(m.env, other)
    case ReturnTo(_, _) => n.env.mutexes == m.env.mutexes && ReturnedProperly(m, n)
    case _ => false
  }

  /**
   A waiter woken from a condition variable, wherever in the scan: the decision makes it current
   and holder of its mutex if and only if no later candidate has anything to offer and the mutex
   has not been destroyed. If it has been, relocking panics. If a later candidate has something to
   offer, the waiter is left running without the mutex it returns with.
   */
  lemma ConditionWaiterResumesIff(m: Machine, clock: Clock, k: nat, t: ThreadId, id: MutexId, f: Env)
    requires Inv(m) && m.phase.Deciding? && WokenAt(m.env, Top(m.frames).initial, clock, k, t, id, f)
    ensures 0 < |f.threads|
    ensures var n, quiet := Step(m, Schedule(clock)), QuietFrom(f, Top(m.frames).initial, clock, k + 1);
            && (RunsHolding(n, t, id) <==> quiet && id in m.env.mutexes)
            && (quiet && id !in m.env.mutexes ==> n.phase == Stopped(RelockFailed))
            && (!quiet && !n.phase.Stopped? ==> LeftWithout(n, t, id) && PassedOver(m, n, clock, t))
  {
    hide Inv, Step, Scan, QuietFrom, LeftWithout, PassedOver, WokenAt;
    var found := WokenInMachine(m, clock, k, t, id, f);
    GoesOnIff(f, Top(m.frames).initial, clock, k + 1, found);
    if QuietFrom(f, Top(m.frames).initial, clock, k + 1) {
      PickedTakesMutex(m, clock, f, t, id);
    } else {
      WaiterIsPassedOver(m, clock, k, t, id, f);
    }
  }

  /** `WokenIs` for the scan of a reachable machine. */
  lemma WokenInMachine(m: Machine, clock: Clock, k: nat, t: ThreadId, id: MutexId, f: Env) returns (found: Found)
    requires Inv(m) && m.phase.Deciding? && WokenAt(m.env, Top(m.frames).initial, clock, k, t, id, f)
    ensures m.frames != [] && f.current == m.env.current < |m.env.threads| == |f.threads| && k + 1 <= |f.threads|
    ensures t < |f.threads| && Runnable(f.threads[t]) && !MutexIsLocked(m.env, id) && !MutexIsLocked(f, id)
    ensures Distance(f.current, t, |f.threads|) <= k + 1
    ensures found.suitable == Some(t) && found.relock == Some(id) && f.mutexes == m.env.mutexes
    ensures Scan(m.env, Top(m.frames).initial, clock, 0, NothingFound) ==
            Scan(f, Top(m.frames).initial, clock, k + 1, found)
  {
    hide Arm, Candidate, Scan, Arrival;
    assert m.env.current < |m.env.threads|;
    WokenIs(m.env, Top(m.frames).initial, clock, k, t, id, f);
    SameLocks(m.env, f, id);
    found := Arrival(m.env, Top(m.frames).initial, clock, k + 1).value.1;
  }

  lemma {:induction false} WaiterIsPassedOver(m: Machine, clock: Clock, k: nat, t: ThreadId, id: MutexId, f: Env)
    requires Inv(m) && m.phase.Deciding? && WokenAt(m.env, Top(m.frames).initial, clock, k, t, id, f)
    requires 0 < |f.threads| && !QuietFrom(f, Top(m.frames).initial, clock, k + 1)
    ensures var n := Step(m, Schedule(clock));
            !RunsHolding(n, t, id) && (!n.phase.Stopped? ==> LeftWithout(n, t, id) && PassedOver(m, n, clock, t))
  {
    hide Step, Scan, Arrival, WokenAt, QuietFrom, ReturnedProperly, Arm;
    var initial := Top(m.frames).initial;
    var found := WokenInMachine(m, clock, k, t, id, f);
    GoesOnIff(f, initial, clock, k + 1, found);
    ScanRelocksFree(f, initial, clock, k + 1, found);
    StaysRunnable(f, initial, clock, k + 1, found, t);
    var r := Scan(m.env, initial, clock, 0, NothingFound);
    if r.Picked? {
      PickedTakesMutex(m, clock, r.env, r.thread, r.relock.value);
    } else if r.ReturnTo? {
      ReturnLeavesWaiter(m, clock, t);
    } else if r.Idle? {
      NotIdle(f, initial, clock, k + 1, found);
    } else {
      ScanPanicStops(m, clock);
    }
  }

  lemma ScanPanicStops(m: Machine, clock: Clock)
    requires m.env.current < |m.env.threads| && m.frames != []
    requires Scan(m.env, Top(m.frames).initial, clock, 0, NothingFound).ScanPanic?
    ensures Step(m, Schedule(clock)).phase.Stopped?
  {
  }

  /** A deferred return takes no mutex and unblocks no other thread. */
  lemma {:induction false} ReturnLeavesWaiter(m: Machine, clock: Clock, t: ThreadId)
    requires Inv(m) && m.phase.Deciding?
    requires var r := Scan(m.env, Top(m.frames).initial, clock, 0, NothingFound);
             r.ReturnTo? && r.thread != t < |r.env.threads| && Runnable(r.env.threads[t])
    ensures var n := Step(m, Schedule(clock));
            && n.env.mutexes == m.env.mutexes && ReturnedProperly(m, n)
            && n.env.current != t < |n.env.threads| && n.env.threads[t].blockedBy.NotBlocked?
  {
    hide Decide, Scan, Leave, ReturnedProperly, ThreadOk, StacksOk;
    ReturnToKeeps(m, clock);
    ReturnToIsReady(m, clock);
    ReturnDecision(m.env, Top(m.frames).initial, clock, t);
    LeaveIs(m, Decide(m.env, Top(m.frames).initial, clock).env);
  }

  lemma {:induction false} ReturnDecision(e: Env, initial: ThreadId, clock: Clock, t: ThreadId)
    requires e.current < |e.threads| && Decide(e, initial, clock).ReturnToCaller?
    requires var r := Scan(e, initial, clock, 0, NothingFound);
             r.ReturnTo? && r.thread != t < |r.env.threads| && Runnable(r.env.threads[t])
    ensures var d := Decide(e, initial, clock).env;
            d.mutexes == e.mutexes && d.current == initial != t < |d.threads| && initial < |d.threads| &&
              d.threads[t].blockedBy.NotBlocked?
  {
    hide Decide, Scan;
    DecideReturns(e, initial, clock);
  }

  lemma LeaveIs(m: Machine, d: Env)
    requires m.frames != [] && ReadyToLeave(m.(env := d))
    ensures Leave(m.(env := d)).env == SetHostFlag(d, d.current, Top(m.frames).callerFlag)
  {
  }

  lemma {:induction false} NotIdle(e: Env, initial: ThreadId, clock: Clock, k: nat, found: Found)
    requires 0 < |e.threads| && k <= |e.threads| && found.suitable.Some?
    ensures !Scan(e, initial, clock, k, found).Idle?
    decreases |e.threads| - k
  {
    if k < |e.threads| {
      var i := Candidate(e, k);
      match Arm(e, i, initial, clock(k))
      case Skip => NotIdle(e, initial, clock, k + 1, found);
      case NotYet(until) => NotIdle(e, initial, clock, k + 1, found.(next := Earliest(found.next, until)));
      case WakeAndGoOn(e1, id) => NotIdle(e1, initial, clock, k + 1, found.(suitable := Some(i), relock := Some(id)));
      case _ =>
    }
  }

  // ---------------------------------------------------------------- a run in which it goes wrong

  const MUTEX: MutexId := 0
  const COND: nat := 7

  /** Four threads, a mutex and a condition variable. */
  function Crowd(b1: Block, b3: Block, current: ThreadId, waiting: nat, owner: Option<ThreadId>,
          cond: Cond): Situation {
    Situation([NotBlocked, b1, NotBlocked, b3], current,
              map[MUTEX := Mutex(Normal, waiting, if owner.Some? then Some(Lock(owner.value, 1)) else None)], 1,
              map[], map[COND := cond])
  }

  const NEW_COND: Cond := Cond([], [], None)
  const QUEUED: Cond := Cond([1], [], Some(MUTEX))
  const SIGNALLED: Cond := Cond([], [1], Some(MUTEX))

  /** Thread 0 makes a mutex, a condition variable and three threads. */
  function SetUp(): seq<Event> {
    [RunRoot] + Calls(MutexInit(Normal)) + Calls(ConditionInit(COND)) + Calls(CreateNext(1)) + Calls(CreateNext(2)) +
      Calls(CreateNext(3))
  }

  /** Thread 1 waits on the condition variable; then threads 2, 3 and 0 have a turn. */
  function OneWaits(clock: Clock): seq<Event> {
    Yield(clock) + Calls(MutexLock(MUTEX)) + Calls(ConditionWait(COND, MUTEX)) + [Schedule(clock)] + Yield(clock) +
      Yield(clock)
  }

  /** Thread 0 takes the mutex, thread 3 queues for it, thread 0 gives it back and signals thread 1. */
  function ZeroSignals(clock: Clock): seq<Event> {
    Calls(MutexLock(MUTEX)) + Yield(clock) + Yield(clock) + Calls(MutexLock(MUTEX)) + [Schedule(clock)]
    + Calls(MutexUnlock(MUTEX)) + Calls(ConditionSignal(COND)) + [TimeSliceOver]
  }

  lemma {:induction false} SetsUp()
    ensures Leads(Start(FreshContext, 0, 0), SetUp(), World(Crowd(NotBlocked, NotBlocked, 0, 0, None, NEW_COND), Guest))
  {
    hide Leads, Step, World;
    var m := Start(FreshContext, 0, 0);
    var s1 := Alone.(mutexes := map[MUTEX := Mutex(Normal, 0, None)], mutexCount := 1);
    var s2 := s1.(conds := map[COND := NEW_COND]);
    var s3, s4 := s2.(blocks := [NotBlocked, NotBlocked]), s2.(blocks := [NotBlocked, NotBlocked, NotBlocked]);
    Begins();
    MakesMutex();
    CallsHost(Alone, MutexInit(Normal), s1);
    Follows(m, [RunRoot], World(Alone, Guest), Calls(MutexInit(Normal)), World(s1, Guest));
    MakesCondition(s1);
    CallsHost(s1, ConditionInit(COND), s2);
    var es := [RunRoot] + Calls(MutexInit(Normal));
    Follows(m, es, World(s1, Guest), Calls(ConditionInit(COND)), World(s2, Guest));
    es := es + Calls(ConditionInit(COND));
    CreatesNext(s2);
    assert s2.blocks + [NotBlocked] == s3.blocks;
    Follows(m, es, World(s2, Guest), Calls(CreateNext(1)), World(s3, Guest));
    es := es + Calls(CreateNext(1));
    CreatesNext(s3);
    assert s3.blocks + [NotBlocked] == s4.blocks;
    Follows(m, es, World(s3, Guest), Calls(CreateNext(2)), World(s4, Guest));
    es := es + Calls(CreateNext(2));
    CreatesNext(s4);
    assert s4.blocks + [NotBlocked] == [NotBlocked, NotBlocked, NotBlocked, NotBlocked];
    Follows(m, es, World(s4, Guest), Calls(CreateNext(3)),
      World(Crowd(NotBlocked, NotBlocked, 0, 0, None, NEW_COND), Guest));
  }

  lemma MakesMutex()
    ensures Enabled(World(Alone, Host), MutexInit(Normal))
    ensures Step(World(Alone, Host), MutexInit(Normal))
            == World(Alone.(mutexes := map[MUTEX := Mutex(Normal, 0, None)], mutexCount := 1), Host)
  {
  }

  lemma MakesCondition(s: Situation)
    requires Small(s) && s.conds == map[]
    ensures Enabled(World(s, Host), ConditionInit(COND))
    ensures Step(World(s, Host), ConditionInit(COND)) == World(s.(conds := map[COND := NEW_COND]), Host)
  {
  }

  lemma TakesTheMutex(b1: Block, b3: Block, c: ThreadId, cond: Cond)
    requires c < 4
    ensures var s := Crowd(b1, b3, c, 0, None, cond);
            Enabled(World(s, Host), MutexLock(MUTEX)) &&
              Step(World(s, Host), MutexLock(MUTEX)) == World(Crowd(b1, b3, c, 0, Some(c), cond), Host)
  {
    var s, t := Crowd(b1, b3, c, 0, None, cond), Crowd(b1, b3, c, 0, Some(c), cond);
    assert LockMutex(World(s, Host).env, MUTEX).env.mutexes == t.mutexes;
  }

  lemma QueuesForTheMutex(b1: Block, cond: Cond)
    ensures var s := Crowd(b1, NotBlocked, 3, 0, Some(0), cond);
            Enabled(World(s, Host), MutexLock(MUTEX)) &&
              Step(World(s, Host), MutexLock(MUTEX)) == World(Crowd(b1, OnMutex(MUTEX), 3, 1, Some(0), cond), Host)
  {
    var s, t := Crowd(b1, NotBlocked, 3, 0, Some(0), cond), Crowd(b1, OnMutex(MUTEX), 3, 1, Some(0), cond);
    var e := LockMutex(World(s, Host).env, MUTEX).env;
    assert e.mutexes == t.mutexes && e.threads == World(t, Host).env.threads;
  }

  lemma FirstToWait(e: Env, e1: Env, c: nat, id: MutexId)
    requires e.current < |e.threads| && UnlockMutex(e, id) == Fine(e1, Got(0)) && e1.current == e.current < |e1.threads|
    requires e1.threads[e1.current].blockedBy == NotBlocked && c in e1.conds && e1.conds[c] == NEW_COND
    ensures CondWait(e, c, id) ==
            Fine(SetBlock(e1.(conds := e1.conds[c := Cond([e1.current], [], Some(id))]), e1.current, OnCondition(c)),
              ())
  {
    hide UnlockMutex;
    assert NEW_COND.waiting + [e1.current] == [e1.current];
  }

  lemma {:induction false} WaitsIn(s: Situation, free: Situation)
    requires Small(s) && |free.blocks| == |s.blocks| && free.current == s.current &&
             free.blocks[s.current].NotBlocked? && free.conds == map[COND := NEW_COND]
    requires UnlockMutex(World(s, Host).env, MUTEX) == Fine(World(free, Host).env, Got(0))
    ensures Enabled(World(s, Host), ConditionWait(COND, MUTEX))
    ensures var t := free.(blocks := free.blocks[s.current := OnCondition(COND)],
            conds := map[COND := Cond([s.current], [], Some(MUTEX))]);
            Step(World(s, Host), ConditionWait(COND, MUTEX)) == World(t, Host)
  {
    hide UnlockMutex, CondWait;
    var queued := map[COND := Cond([s.current], [], Some(MUTEX))];
    FirstToWait(World(s, Host).env, World(free, Host).env, COND, MUTEX);
    assert free.conds[COND := Cond([s.current], [], Some(MUTEX))] == queued;
    var f := free.(conds := queued);
    assert World(free, Host).env.threads == World(f, Host).env.threads;
    BlocksIn(f, OnCondition(COND));
    var t := f.(blocks := f.blocks[s.current := OnCondition(COND)]);
    SameBirths(s, t);
  }

  lemma {:induction false} WaitsForTheCondition()
    ensures var s := Crowd(NotBlocked, NotBlocked, 1, 0, Some(1), NEW_COND);
            Enabled(World(s, Host), ConditionWait(COND, MUTEX)) &&
            Step(World(s, Host), ConditionWait(COND, MUTEX)) ==
              World(Crowd(OnCondition(COND), NotBlocked, 1, 0, None, QUEUED), Host)
  {
    hide Step, World, Enabled;
    var s, free := Crowd(NotBlocked, NotBlocked, 1, 0, Some(1), NEW_COND),
      Crowd(NotBlocked, NotBlocked, 1, 0, None, NEW_COND);
    ReleasesTheMutex(NotBlocked, NotBlocked, 1, 0, NEW_COND);
    WaitsIn(s, free);
    assert free.blocks[1 := OnCondition(COND)] == Crowd(OnCondition(COND), NotBlocked, 1, 0, None, QUEUED).blocks;
  }

  lemma ReleasesTheMutex(b1: Block, b3: Block, c: ThreadId, waiting: nat, cond: Cond)
    requires c < 4
    ensures var s, t := Crowd(b1, b3, c, waiting, Some(c), cond), Crowd(b1, b3, c, waiting, None, cond);
            && UnlockMutex(World(s, Host).env, MUTEX) == Fine(World(t, Host).env, Got(0))
            && Enabled(World(s, Host), MutexUnlock(MUTEX)) && Step(World(s, Host), MutexUnlock(MUTEX)) == World(t, Host)
  {
    var s, t := Crowd(b1, b3, c, waiting, Some(c), cond), Crowd(b1, b3, c, waiting, None, cond);
    assert UnlockMutex(World(s, Host).env, MUTEX).env.mutexes == t.mutexes;
  }

  lemma SignalsTheCondition(s: Situation)
    requires Small(s) && s.conds == map[COND := QUEUED]
    ensures Enabled(World(s, Host), ConditionSignal(COND))
    ensures Step(World(s, Host), ConditionSignal(COND)) == World(s.(conds := map[COND := SIGNALLED]), Host)
  {
    assert QUEUED.waiting[1..] == [] && QUEUED.waking + [QUEUED.waiting[0]] == [1];
    assert CondSignal(World(s, Host).env, COND).env.conds == map[COND := SIGNALLED];
  }

  /** The condition waiter is passed by as long as nobody signals. */
  lemma PassesTheWaiter(b3: Block, owner: Option<ThreadId>)
    requires b3.NotBlocked? || b3.OnMutex?
    ensures FirstReady(Crowd(OnCondition(COND), b3, 0, 0, owner, QUEUED), 1, 2)
  {
    var s := Crowd(OnCondition(COND), b3, 0, 0, owner, QUEUED);
    assert Nth(s, 0) == 1 && Offers(s, 1) == Skip && Nth(s, 1) == 2;
  }

  lemma {:induction false} WaitsInTurn(clock: Clock)
    ensures Leads(World(Crowd(NotBlocked, NotBlocked, 0, 0, None, NEW_COND), Guest), OneWaits(clock),
                  World(Crowd(OnCondition(COND), NotBlocked, 0, 0, None, QUEUED), Guest))
  {
    hide Leads, Step, World, Enabled, Offers, Yield, Calls;
    var s := Crowd(NotBlocked, NotBlocked, 0, 0, None, NEW_COND);
    var m := World(s, Guest);
    var s1, s2 := Crowd(NotBlocked, NotBlocked, 1, 0, None, NEW_COND),
      Crowd(NotBlocked, NotBlocked, 1, 0, Some(1), NEW_COND);
    Yields(s, clock, 0, 1);
    var es := Yield(clock);
    TakesTheMutex(NotBlocked, NotBlocked, 1, NEW_COND);
    CallsHost(s1, MutexLock(MUTEX), s2);
    Follows(m, es, World(s1, Guest), Calls(MutexLock(MUTEX)), World(s2, Guest));
    es := es + Calls(MutexLock(MUTEX));
    WaitsForTheCondition();
    var s3 := Crowd(OnCondition(COND), NotBlocked, 1, 0, None, QUEUED);
    CallsHost(s2, ConditionWait(COND, MUTEX), s3);
    Follows(m, es, World(s2, Guest), Calls(ConditionWait(COND, MUTEX)), World(s3, Deciding));
    es := es + Calls(ConditionWait(COND, MUTEX));
    Turns(s3, clock, 0, 2);
    var s4 := Crowd(OnCondition(COND), NotBlocked, 2, 0, None, QUEUED);
    Follows(m, es, World(s3, Deciding), [Schedule(clock)], World(s4, Guest));
    es := es + [Schedule(clock)];
    Yields(s4, clock, 0, 3);
    var s5 := Crowd(OnCondition(COND), NotBlocked, 3, 0, None, QUEUED);
    Follows(m, es, World(s4, Guest), Yield(clock), World(s5, Guest));
    Yields(s5, clock, 0, 0);
    Follows(m, es + Yield(clock), World(s5, Guest), Yield(clock),
      World(Crowd(OnCondition(COND), NotBlocked, 0, 0, None, QUEUED), Guest));
  }

  lemma {:induction false} QueuesInTurn(clock: Clock)
    ensures Leads(World(Crowd(OnCondition(COND), NotBlocked, 0, 0, None, QUEUED), Guest),
                  Calls(MutexLock(MUTEX)) + Yield(clock) + Yield(clock) + Calls(MutexLock(MUTEX)) + [Schedule(clock)],
                  World(Crowd(OnCondition(COND), OnMutex(MUTEX), 0, 1, Some(0), QUEUED), Guest))
  {
    hide Leads, Step, World, Enabled, Offers, Yield, Calls;
    var waits := OnCondition(COND);
    var s := Crowd(waits, NotBlocked, 0, 0, None, QUEUED);
    var m := World(s, Guest);
    TakesTheMutex(waits, NotBlocked, 0, QUEUED);
    var s1 := Crowd(waits, NotBlocked, 0, 0, Some(0), QUEUED);
    CallsHost(s, MutexLock(MUTEX), s1);
    var es := Calls(MutexLock(MUTEX));
    PassesTheWaiter(NotBlocked, Some(0));
    Yields(s1, clock, 1, 2);
    var s2 := Crowd(waits, NotBlocked, 2, 0, Some(0), QUEUED);
    Follows(m, es, World(s1, Guest), Yield(clock), World(s2, Guest));
    es := es + Yield(clock);
    Yields(s2, clock, 0, 3);
    var s3 := Crowd(waits, NotBlocked, 3, 0, Some(0), QUEUED);
    Follows(m, es, World(s2, Guest), Yield(clock), World(s3, Guest));
    es := es + Yield(clock);
    QueuesForTheMutex(waits, QUEUED);
    var s4 := Crowd(waits, OnMutex(MUTEX), 3, 1, Some(0), QUEUED);
    CallsHost(s3, MutexLock(MUTEX), s4);
    Follows(m, es, World(s3, Guest), Calls(MutexLock(MUTEX)), World(s4, Deciding));
    es := es + Calls(MutexLock(MUTEX));
    Turns(s4, clock, 0, 0);
    Follows(m, es, World(s4, Deciding), [Schedule(clock)],
      World(Crowd(waits, OnMutex(MUTEX), 0, 1, Some(0), QUEUED), Guest));
  }

  lemma {:induction false} SignalsInTurn()
    ensures Leads(World(Crowd(OnCondition(COND), OnMutex(MUTEX), 0, 1, Some(0), QUEUED), Guest),
                  Calls(MutexUnlock(MUTEX)) + Calls(ConditionSignal(COND)) + [TimeSliceOver],
                  World(Crowd(OnCondition(COND), OnMutex(MUTEX), 0, 1, None, SIGNALLED), Deciding))
  {
    hide Leads, Step, World, Enabled, Offers, Yield, Calls;
    var s := Crowd(OnCondition(COND), OnMutex(MUTEX), 0, 1, Some(0), QUEUED);
    var s1 := Crowd(OnCondition(COND), OnMutex(MUTEX), 0, 1, None, QUEUED);
    var s2 := Crowd(OnCondition(COND), OnMutex(MUTEX), 0, 1, None, SIGNALLED);
    ReleasesTheMutex(OnCondition(COND), OnMutex(MUTEX), 0, 1, QUEUED);
    CallsHost(s, MutexUnlock(MUTEX), s1);
    SignalsTheCondition(s1);
    CallsHost(s1, ConditionSignal(COND), s2);
    Follows(World(s, Guest), Calls(MutexUnlock(MUTEX)), World(s1, Guest), Calls(ConditionSignal(COND)),
      World(s2, Guest));
    YieldsSlice(s2);
    Follows(World(s, Guest), Calls(MutexUnlock(MUTEX)) + Calls(ConditionSignal(COND)), World(s2, Guest),
      [TimeSliceOver], World(s2, Deciding));
  }

  /** From the start of the emulator to the decision that goes wrong. */
  function MisplacingRun(clock: Clock): seq<Event> { SetUp() + OneWaits(clock) + ZeroSignals(clock) }

  lemma {:induction false} ReachesSignalled(clock: Clock)
    ensures Leads(Start(FreshContext, 0, 0), MisplacingRun(clock),
            World(Crowd(OnCondition(COND), OnMutex(MUTEX), 0, 1, None, SIGNALLED), Deciding))
  {
    hide Leads, Step, World, SetUp, OneWaits, Yield, Calls;
    var m := Start(FreshContext, 0, 0);
    var s1 := Crowd(NotBlocked, NotBlocked, 0, 0, None, NEW_COND);
    var s2 := Crowd(OnCondition(COND), NotBlocked, 0, 0, None, QUEUED);
    var s3 := Crowd(OnCondition(COND), OnMutex(MUTEX), 0, 1, Some(0), QUEUED);
    var s4 := Crowd(OnCondition(COND), OnMutex(MUTEX), 0, 1, None, SIGNALLED);
    var queues := Calls(MutexLock(MUTEX)) + Yield(clock) + Yield(clock) + Calls(MutexLock(MUTEX)) + [Schedule(clock)];
    var signals := Calls(MutexUnlock(MUTEX)) + Calls(ConditionSignal(COND)) + [TimeSliceOver];
    SetsUp();
    WaitsInTurn(clock);
    Follows(m, SetUp(), World(s1, Guest), OneWaits(clock), World(s2, Guest));
    QueuesInTurn(clock);
    Follows(m, SetUp() + OneWaits(clock), World(s2, Guest), queues, World(s3, Guest));
    SignalsInTurn();
    Follows(m, SetUp() + OneWaits(clock) + queues, World(s3, Guest), signals, World(s4, Deciding));
    assert ZeroSignals(clock) == queues + signals;
    assert SetUp() + OneWaits(clock) + queues + signals == MisplacingRun(clock);
  }

  /** Thread 1 is signalled, its mutex is not held, and thread 2 is ready. */
  predicate Ripe(s: Situation) {
    && |s.blocks| == 4 && s.current == 0 && s.blocks[1] == OnCondition(COND) && s.blocks[2].NotBlocked?
    && s.conds == map[COND := SIGNALLED] && (MUTEX in s.mutexes ==> s.mutexes[MUTEX].locked.None?)
  }

  /** The state after the waiter has been woken. */
  function OneWoken(s: Situation): Env
    requires Ripe(s)
  {
    Unblock(World(s, Deciding).env.(conds := map[COND := Cond([], [], Some(MUTEX))]), 1)
  }

  /** The scan wakes the waiter, goes on, and picks thread 2. */
  lemma {:induction false} PicksTwo(s: Situation, clock: Clock)
    requires Ripe(s)
    ensures Scan(World(s, Deciding).env, 0, clock, 0, NothingFound) == Picked(OneWoken(s), 2, Some(MUTEX))
  {
    var e := World(s, Deciding).env;
    assert Candidate(e, 0) == 1;
    var r := Arm(e, 1, 0, clock(0));
    assert SIGNALLED.waking[1..] == [];
    assert e.conds[COND := Cond([], [], Some(MUTEX))] == map[COND := Cond([], [], Some(MUTEX))];
    assert r == WakeAndGoOn(OneWoken(s), MUTEX);
    assert Candidate(r.env, 1) == 2;
    assert Arm(r.env, 2, 0, clock(1)) == Wake(r.env, None);
    assert Scan(r.env, 0, clock, 1, Found(Some(1), None, Some(MUTEX))) == Picked(r.env, 2, Some(MUTEX));
  }

  /**
   A run from the start in which thread 2, which never asked for it, is given the mutex; thread 1
   returns from its wait without it; and thread 3, still queued for it, is no longer counted.
   */
  lemma {:induction false} ConditionWakeupCanMisplaceMutex(clock: Clock)
    ensures var es := MisplacingRun(clock) + [Schedule(clock)];
            && Legal(Start(FreshContext, 0, 0), es)
            && var n := Run(Start(FreshContext, 0, 0), es);
               && RunsHolding(n, 2, MUTEX) && LeftWithout(n, 1, MUTEX)
               && n.env.mutexes[MUTEX].waitingCount == 0 && Blocked(n.env.threads, OnMutex(MUTEX)) == 1
  {
    hide MisplacingRun, Leads, Step, Inv;
    var start := Start(FreshContext, 0, 0);
    var m := World(Crowd(OnCondition(COND), OnMutex(MUTEX), 0, 1, None, SIGNALLED), Deciding);
    ReachesSignalled(clock);
    StartIsGood(FreshContext, 0, 0);
    LeadsToGood(start, MisplacingRun(clock), m);
    TwoIsGiven(clock);
    var n := Step(m, Schedule(clock));
    OneStep(m, Schedule(clock));
    Follows(start, MisplacingRun(clock), m, [Schedule(clock)], n);
    LeadsIs(start, MisplacingRun(clock) + [Schedule(clock)], n);
  }

  lemma {:induction false} TwoIsGiven(clock: Clock)
    requires Inv(World(Crowd(OnCondition(COND), OnMutex(MUTEX), 0, 1, None, SIGNALLED), Deciding))
    ensures var n := Step(World(Crowd(OnCondition(COND), OnMutex(MUTEX), 0, 1, None, SIGNALLED), Deciding),
            Schedule(clock));
            && RunsHolding(n, 2, MUTEX) && LeftWithout(n, 1, MUTEX)
            && n.env.mutexes[MUTEX].waitingCount == 0 && Blocked(n.env.threads, OnMutex(MUTEX)) == 1
  {
    hide Inv, Scan;
    var m := World(Crowd(OnCondition(COND), OnMutex(MUTEX), 0, 1, None, SIGNALLED), Deciding);
    var s := Crowd(OnCondition(COND), OnMutex(MUTEX), 0, 1, None, SIGNALLED);
    PicksTwo(s, clock);
    var f := OneWoken(s);
    PickedTakesMutex(m, clock, f, 2, MUTEX);
    var ts := Step(m, Schedule(clock)).env.threads;
    assert f.threads[1].blockedBy == NotBlocked && f.threads[2].blockedBy == NotBlocked &&
      f.threads[3].blockedBy == OnMutex(MUTEX);
    OneBlocked(ts);
  }

  lemma {:induction false} OneBlocked(ts: seq<Thread>)
    requires |ts| == 4 && ts[3].blockedBy == OnMutex(MUTEX)
    requires forall u :: 0 <= u < 3 ==> ts[u].blockedBy.NotBlocked?
    ensures Blocked(ts, OnMutex(MUTEX)) == 1
  {
    BlockedNone(ts[..3], OnMutex(MUTEX));
  }

  /** Thread 0 destroys the mutex that the waiter will have to take again, and then signals. */
  function DestroyingRun(clock: Clock): seq<Event> {
    SetUp() + OneWaits(clock) + Calls(MutexDestroy(MUTEX)) + Calls(ConditionSignal(COND)) + [TimeSliceOver]
  }

  lemma DestroysTheMutex()
    ensures var s := Crowd(OnCondition(COND), NotBlocked, 0, 0, None, QUEUED);
            Enabled(World(s, Host), MutexDestroy(MUTEX)) &&
              Step(World(s, Host), MutexDestroy(MUTEX)) == World(s.(mutexes := map[]), Host)
  {
    var s := Crowd(OnCondition(COND), NotBlocked, 0, 0, None, QUEUED);
    assert DestroyMutex(World(s, Host).env, MUTEX).env.mutexes == map[];
  }

  lemma {:induction false} ReachesDestroyed(clock: Clock)
    ensures Leads(Start(FreshContext, 0, 0), DestroyingRun(clock),
                  World(Crowd(OnCondition(COND), NotBlocked, 0, 0, None, SIGNALLED).(mutexes := map[]), Deciding))
  {
    hide Leads, Step, World, SetUp, OneWaits, Calls, Enabled;
    var m := Start(FreshContext, 0, 0);
    var s := Crowd(NotBlocked, NotBlocked, 0, 0, None, NEW_COND);
    var s1 := Crowd(OnCondition(COND), NotBlocked, 0, 0, None, QUEUED);
    var s2, s3 := s1.(mutexes := map[]), s1.(mutexes := map[], conds := map[COND := SIGNALLED]);
    SetsUp();
    WaitsInTurn(clock);
    Follows(m, SetUp(), World(s, Guest), OneWaits(clock), World(s1, Guest));
    var es := SetUp() + OneWaits(clock);
    DestroysTheMutex();
    CallsHost(s1, MutexDestroy(MUTEX), s2);
    Follows(m, es, World(s1, Guest), Calls(MutexDestroy(MUTEX)), World(s2, Guest));
    es := es + Calls(MutexDestroy(MUTEX));
    SignalsTheCondition(s2);
    CallsHost(s2, ConditionSignal(COND), s3);
    Follows(m, es, World(s2, Guest), Calls(ConditionSignal(COND)), World(s3, Guest));
    es := es + Calls(ConditionSignal(COND));
    YieldsSlice(s3);
    Follows(m, es, World(s3, Guest), [TimeSliceOver], World(s3, Deciding));
  }

  /** A run from the start in which relocking panics: `destroy_mutex` does not count condition waiters. */
  lemma {:induction false} DestroyedMutexPanics(clock: Clock)
    ensures var es := DestroyingRun(clock) + [Schedule(clock)];
            Legal(Start(FreshContext, 0, 0), es) && Run(Start(FreshContext, 0, 0), es).phase == Stopped(RelockFailed)
  {
    hide DestroyingRun, Leads, Step, Inv, Scan;
    var start := Start(FreshContext, 0, 0);
    var s := Crowd(OnCondition(COND), NotBlocked, 0, 0, None, SIGNALLED).(mutexes := map[]);
    var m := World(s, Deciding);
    ReachesDestroyed(clock);
    StartIsGood(FreshContext, 0, 0);
    LeadsToGood(start, DestroyingRun(clock), m);
    PicksTwo(s, clock);
    PickedTakesMutex(m, clock, OneWoken(s), 2, MUTEX);
    var n := Step(m, Schedule(clock));
    OneStep(m, Schedule(clock));
    Follows(start, DestroyingRun(clock), m, [Schedule(clock)], n);
    LeadsIs(start, DestroyingRun(clock) + [Schedule(clock)], n);
  }
}
