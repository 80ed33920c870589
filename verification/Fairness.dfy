/** Bounded waiting (src/environment.rs:1121-1247): a ready thread is reached within one round of decisions. */
module Fairness {
  import opened Prelude
  import opened Threads
  import opened Scheduler
  import opened Runs
  import opened RunInvariant
  import opened Waiters

  /** Steps from thread `c` forward to thread `t` in the cyclic order of `n` threads; `n` when they are the same. */
  function Distance(c: nat, t: nat, n: nat): (d: nat)
    requires c < n && t < n
    ensures 1 <= d <= n && (c != t ==> d < n)
  {
    if c < t then t - c else t + n - c
  }

  lemma WrapOnce(x: nat, n: nat)
    requires 0 < n && x < 2 * n
    ensures x % n == if x < n then x else x - n
  {
    if x >= n { assert x == n + (x - n); }
  }

  lemma CandidateDistance(e: Env, k: nat, t: ThreadId)
    requires e.current < |e.threads| && t < |e.threads| && k < |e.threads|
    ensures Candidate(e, Distance(e.current, t, |e.threads|) - 1) == t
    ensures Candidate(e, k) < |e.threads| && Distance(e.current, Candidate(e, k), |e.threads|) == k + 1
  {
    WrapOnce(e.current + Distance(e.current, t, |e.threads|), |e.threads|);
    WrapOnce(e.current + 1 + k, |e.threads|);
  }

  /** `i` comes no later than `t` in the scan. */
  predicate NotPast(e: Env, i: ThreadId, t: ThreadId) {
    e.current < |e.threads| && t < |e.threads| && i < |e.threads| &&
    Distance(e.current, i, |e.threads|) <= Distance(e.current, t, |e.threads|)
  }

  lemma ReadyIsTaken(e: Env, t: ThreadId, initial: ThreadId, now: int)
    requires t < |e.threads| && Runnable(e.threads[t])
    ensures Arm(e, t, initial, now) == Wake(e, None)
  {
  }

  /** The scan from its k-th candidate on cannot go past a ready thread. */
  lemma {:induction false} ScanStopsAtReady(e: Env, initial: ThreadId, clock: Clock, k: nat, found: Found, t: ThreadId)
    requires e.current < |e.threads| && t < |e.threads| && k < Distance(e.current, t, |e.threads|)
    requires Runnable(e.threads[t])
    requires found.suitable.Some? ==> NotPast(e, found.suitable.value, t)
    ensures match Scan(e, initial, clock, k, found)
            case Picked(_, i, _) => NotPast(e, i, t)
            case ReturnTo(_, i) => NotPast(e, i, t)
            case Idle(_, _) => false
            case ScanPanic(_) => true
    decreases |e.threads| - k
  {
    hide Arm, Candidate;
    var i := Candidate(e, k);
    CandidateDistance(e, k, t);
    ArmWakes(e, i, initial, clock(k));
    ReadyIsTaken(e, t, initial, clock(k));
    var r := Arm(e, i, initial, clock(k));
    if i == t {
      assert r.Wake?;
    } else if r.Skip? {
      ScanStopsAtReady(e, initial, clock, k + 1, found, t);
    } else if r.NotYet? {
      ScanStopsAtReady(e, initial, clock, k + 1, found.(next := Earliest(found.next, r.until)), t);
    } else if r.WakeAndGoOn? {
      assert SameOrWoken(e.threads[t], r.env.threads[t]);
      ScanStopsAtReady(r.env, initial, clock, k + 1, found.(suitable := Some(i), relock := Some(r.mutex)), t);
    }
  }

  /** Every decision brings the current thread strictly closer to a ready thread, without passing it. */
  lemma DecisionApproaches(e: Env, initial: ThreadId, clock: Clock, t: ThreadId)
    requires e.current < |e.threads| && t < |e.threads| && t != e.current && Runnable(e.threads[t])
    ensures match Decide(e, initial, clock)
            case Retry(_) => false
            case Stop(_) => true
            case Resume(d) => Approaches(e, d, t)
            case ReturnToCaller(d) => Approaches(e, d, t)
  {
    hide Scan, Runnable;
    ScanStopsAtReady(e, initial, clock, 0, NothingFound, t);
    ScanWakes(e, initial, clock, 0, NothingFound);
    var r := Scan(e, initial, clock, 0, NothingFound);
    if r.Picked? {
      PickedCurrent(r.env, r.thread, r.relock);
    }
  }

  predicate Approaches(e: Env, d: Env, t: ThreadId) {
    e.current < |e.threads| && t < |e.threads| && |d.threads| == |e.threads| && d.current < |d.threads| &&
    (d.current == t || Distance(d.current, t, |e.threads|) < Distance(e.current, t, |e.threads|))
  }

  lemma PickedCurrent(e1: Env, i: ThreadId, relock: Option<MutexId>)
    requires e1.current < |e1.threads| && i < |e1.threads|
    ensures i != e1.current && SwitchThread(e1, i).Fine? ==>
              SwitchThread(e1, i).env.current == i && |SwitchThread(e1, i).env.threads| == |e1.threads|
    ensures var e2 := if i != e1.current && SwitchThread(e1, i).Fine? then SwitchThread(e1, i).env else e1;
            relock.Some? && e2.current < |e2.threads| && RelockMutex(e2, relock.value).Fine? ==>
              RelockMutex(e2, relock.value).env.current == e2.current &&
                |RelockMutex(e2, relock.value).env.threads| == |e2.threads|
  {
    var e2 := if i != e1.current && SwitchThread(e1, i).Fine? then SwitchThread(e1, i).env else e1;
    if relock.Some? && e2.current < |e2.threads| && RelockMutex(e2, relock.value).Fine? { RelockIs(e2, relock.value); }
  }

  // ---------------------------------------------------------------- over runs

  predicate IsReady(m: Machine, t: ThreadId, n: nat) {
    !m.phase.Stopped? && |m.env.threads| == n && m.env.current < n && t < n && t != m.env.current &&
      Runnable(m.env.threads[t])
  }

  /** In every state of the run thread `t` is ready but not current, and there are `n` threads. */
  ghost predicate WaitsThroughout(m: Machine, es: seq<Event>, t: ThreadId, n: nat)
    decreases |es|
  {
    IsReady(m, t, n) && (es == [] || WaitsThroughout(Step(m, es[0]), es[1..], t, n))
  }

  function Decisions(es: seq<Event>): nat {
    if es == [] then 0 else (if es[0].Schedule? then 1 else 0) + Decisions(es[1..])
  }

  lemma StepKeepsCurrent(m: Machine, e: Event)
    requires Inv(m) && Enabled(m, e) && !e.Schedule? && !Step(m, e).phase.Stopped?
    ensures Step(m, e).env.current == m.env.current
  {
    assert ThreadOk(m, m.env.current);
    if HostEvent(e) { HostEventMoves(m, e); } else { GuestStepMoves(m, e); }
  }

  /** While a ready thread waits, each decision uses up some of its distance: n threads allow at most n - 2 of them. */
  lemma {:induction false} BoundedWaiting(m: Machine, es: seq<Event>, t: ThreadId, n: nat)
    requires Inv(m) && Legal(m, es) && WaitsThroughout(m, es, t, n)
    ensures Decisions(es) + 1 <= Distance(m.env.current, t, n)
    ensures Decisions(es) + 2 <= n
    decreases |es|
  {
    if es != [] {
      var e := es[0];
      StepKeeps(m, e);
      BoundedWaiting(Step(m, e), es[1..], t, n);
      if e.Schedule? {
        DecisionApproaches(m.env, Top(m.frames).initial, e.clock, t);
      } else {
        StepKeepsCurrent(m, e);
      }
    }
  }
}
