/**
 What one scheduling decision does, told from the state before it and the readings of the clock
 alone (src/environment.rs:1121-1263): which waits it ends, which thread it resumes, which mutex it
 takes, and when it stops. Nothing here is stated through the scan itself.
 */
module Decisions {
  import opened Prelude
  import opened Threads
  import opened Scheduler
  import opened Runs
  import opened RunInvariant
  import opened Waiters
  import opened Needs
  import opened Fairness
  import opened Conditions

  // ---------------------------------------------------------------- the vocabulary

  /** How many candidates come before thread `t`, cyclically from the one after the current thread. */
  function Place(e: Env, t: ThreadId): (k: nat)
    requires e.current < |e.threads| && t < |e.threads|
    ensures k < |e.threads|
  {
    Distance(e.current, t, |e.threads|) - 1
  }

  predicate IsFree(e: Env, id: MutexId) { id in e.mutexes ==> e.mutexes[id].locked.None? }

  /**
   A candidate read at the time `now` ends the scan: its wait is over, or it has none, or its return
   is due. A semaphore that is gone ends the scan in a panic.
   */
  predicate Ends(e: Env, t: ThreadId, initial: ThreadId, now: int)
    requires t < |e.threads|
  {
    e.threads[t].active && !e.threads[t].inHostFunction &&
    match e.threads[t].blockedBy
    case NotBlocked => true
    case Sleeping(until) => until <= now
    case OnMutex(id) => IsFree(e, id)
    case OnSemaphore(s) => s in e.sems ==> e.sems[s].value > 0
    case Joining(j, _) => j < |e.threads| && !e.threads[j].active
    case OnCondition(_) => false
    case DeferredReturn => t == initial
  }

  /** No earlier candidate ends the scan. */
  ghost predicate Reached(e: Env, initial: ThreadId, clock: Clock, t: ThreadId)
    requires e.current < |e.threads| && t < |e.threads|
  {
    forall u :: 0 <= u < |e.threads| && Place(e, u) < Place(e, t) ==> !Ends(e, u, initial, clock(Place(e, u)))
  }

  predicate WaitsFor(e: Env, t: ThreadId, c: nat) {
    t < |e.threads| && e.threads[t].active && !e.threads[t].inHostFunction && e.threads[t].blockedBy == OnCondition(c)
  }

  /**
   The first `p + 1` threads signalled on condition variable `c` wait for it, its mutex is free, and
   they are candidates in the order in which they were signalled.
   */
  ghost predicate InTurn(e: Env, c: nat, p: nat)
    requires e.current < |e.threads|
  {
    && c in e.conds && p < |e.conds[c].waking| && e.conds[c].currMutex.Some? && IsFree(e, e.conds[c].currMutex.value)
    && (forall q :: 0 <= q <= p ==> WaitsFor(e, e.conds[c].waking[q], c))
    && (forall q, r :: 0 <= q < r <= p ==> Place(e, e.conds[c].waking[q]) < Place(e, e.conds[c].waking[r]))
  }

  /** Thread `t` waits for a condition variable, has been signalled, and so have and are all before it. */
  ghost predicate TurnHasCome(e: Env, t: ThreadId)
    requires e.current < |e.threads|
  {
    t < |e.threads| && e.threads[t].blockedBy.OnCondition? &&
    exists p: nat :: InTurn(e, e.threads[t].blockedBy.cond, p) && e.conds[e.threads[t].blockedBy.cond].waking[p] == t
  }

  // ---------------------------------------------------------------- the scan from afar

  /** What of `c`'s queue the first `k` candidates have left. */
  ghost predicate QueueAt(e: Env, f: Env, c: nat, k: nat)
    requires e.current < |e.threads| && c in e.conds && c in f.conds
  {
    var p := |e.conds[c].waking| - |f.conds[c].waking|;
    && 0 <= p && f.conds[c] == e.conds[c].(waking := e.conds[c].waking[p..])
    && (forall q :: 0 <= q < p ==> InTurn(e, c, q) && Place(e, e.conds[c].waking[q]) < k)
    && !(InTurn(e, c, p) && Place(e, e.conds[c].waking[p]) < k)
  }

  /** The condition variables as the first `k` candidates have left them. */
  ghost predicate QueuesAt(e: Env, f: Env, k: nat)
    requires e.current < |e.threads|
  {
    f.conds.Keys == e.conds.Keys && forall c :: c in e.conds ==> QueueAt(e, f, c, k)
  }

  ghost predicate WokenBefore(e: Env, t: ThreadId, k: nat)
    requires e.current < |e.threads|
  {
    TurnHasCome(e, t) && t < |e.threads| && Place(e, t) < k
  }

  /** The state in which the scan comes to its k-th candidate. */
  ghost predicate ScannedTo(e: Env, f: Env, k: nat)
    requires e.current < |e.threads|
  {
    && f == e.(threads := f.threads, conds := f.conds) && |f.threads| == |e.threads| && QueuesAt(e, f, k)
    && (forall t :: 0 <= t < |e.threads| ==>
         f.threads[t] == if WokenBefore(e, t, k) then e.threads[t].(blockedBy := NotBlocked) else e.threads[t])
  }

  /** Thread `t` is the next that its condition variable has to wake, and may have its mutex. */
  predicate NextInLine(f: Env, t: ThreadId)
    requires t < |f.threads|
  {
    && f.threads[t].active && !f.threads[t].inHostFunction && f.threads[t].blockedBy.OnCondition?
    && var c := f.threads[t].blockedBy.cond;
       && c in f.conds && f.conds[c].waking != [] && f.conds[c].waking[0] == t
       && f.conds[c].currMutex.Some? && IsFree(f, f.conds[c].currMutex.value)
  }

  lemma {:induction false} TurnIsNext(e: Env, f: Env, k: nat, t: ThreadId)
    requires e.current < |e.threads| && ScannedTo(e, f, k) && t < |e.threads| && Place(e, t) == k && TurnHasCome(e, t)
    ensures NextInLine(f, t)
  {
    var c := e.threads[t].blockedBy.cond;
    var w := e.conds[c].waking;
    var q: nat :| InTurn(e, c, q) && w[q] == t;
    assert QueueAt(e, f, c, k) && WaitsFor(e, w[q], c);
    if |w| - |f.conds[c].waking| < q { TurnsBefore(e, c, q, |w| - |f.conds[c].waking|); }
  }

  lemma {:induction false} NextHasTurn(e: Env, f: Env, k: nat, t: ThreadId)
    requires e.current < |e.threads| && ScannedTo(e, f, k) && t < |e.threads| && Place(e, t) == k && NextInLine(f, t)
    ensures TurnHasCome(e, t)
  {
    var c := e.threads[t].blockedBy.cond;
    assert QueueAt(e, f, c, k);
    NextTurn(e, c, |e.conds[c].waking| - |f.conds[c].waking|, k);
  }

  lemma TurnsBefore(e: Env, c: nat, q: nat, p: nat)
    requires e.current < |e.threads| && InTurn(e, c, q) && p < q
    ensures InTurn(e, c, p) && WaitsFor(e, e.conds[c].waking[p], c) && WaitsFor(e, e.conds[c].waking[q], c)
    ensures Place(e, e.conds[c].waking[p]) < Place(e, e.conds[c].waking[q])
  {
    assert WaitsFor(e, e.conds[c].waking[p], c) && WaitsFor(e, e.conds[c].waking[q], c);
  }

  /** After `p` threads in turn, all of them before the k-th candidate, that candidate is in turn if it is next. */
  lemma NextTurn(e: Env, c: nat, p: nat, k: nat)
    requires e.current < |e.threads| && c in e.conds && p < |e.conds[c].waking|
    requires e.conds[c].currMutex.Some? && IsFree(e, e.conds[c].currMutex.value)
    requires forall q :: 0 <= q < p ==> InTurn(e, c, q) && Place(e, e.conds[c].waking[q]) < k
    requires WaitsFor(e, e.conds[c].waking[p], c) && Place(e, e.conds[c].waking[p]) == k
    ensures InTurn(e, c, p)
  {
    var w := e.conds[c].waking;
    forall q | 0 <= q <= p ensures WaitsFor(e, w[q], c) {
      if q < p { assert InTurn(e, c, q); }
    }
    forall q, r | 0 <= q < r <= p ensures Place(e, w[q]) < Place(e, w[r]) {
      assert InTurn(e, c, q);
      if r < p { assert InTurn(e, c, r); }
    }
  }

  /** One more candidate looked at, and not woken from a condition variable. */
  lemma {:induction false} PassedBy(e: Env, f: Env, k: nat, t: ThreadId)
    requires e.current < |e.threads| && ScannedTo(e, f, k) && t < |e.threads| && Place(e, t) == k
    requires !TurnHasCome(e, t)
    ensures ScannedTo(e, f, k + 1)
  {
    forall u | 0 <= u < |e.threads| ensures WokenBefore(e, u, k + 1) <==> WokenBefore(e, u, k) {
      if Place(e, u) == k { SamePlace(e, t, u); }
    }
    forall c | c in e.conds ensures QueueAt(e, f, c, k + 1) {
      assert QueueAt(e, f, c, k);
      NotNext(e, f, c, k, t);
    }
  }

  /** The next in `c`'s queue is not the k-th candidate, if it is not that candidate's turn. */
  lemma {:induction false} NotNext(e: Env, f: Env, c: nat, k: nat, t: ThreadId)
    requires e.current < |e.threads| && t < |e.threads| && Place(e, t) == k
    requires !TurnHasCome(e, t) || e.threads[t].blockedBy != OnCondition(c)
    requires c in e.conds && c in f.conds && QueueAt(e, f, c, k)
    ensures var p := |e.conds[c].waking| - |f.conds[c].waking|;
            !(InTurn(e, c, p) && Place(e, e.conds[c].waking[p]) < k + 1)
  {
    hide InTurn, TurnHasCome, Place, WaitsFor;
    var p := |e.conds[c].waking| - |f.conds[c].waking|;
    if InTurn(e, c, p) {
      InTurnHasTurn(e, c, p);
      if Place(e, e.conds[c].waking[p]) == k { SamePlace(e, t, e.conds[c].waking[p]); }
    }
  }

  lemma InTurnHasTurn(e: Env, c: nat, p: nat)
    requires e.current < |e.threads| && InTurn(e, c, p)
    ensures c in e.conds && p < |e.conds[c].waking|
    ensures var t := e.conds[c].waking[p];
            t < |e.threads| && e.threads[t].blockedBy == OnCondition(c) && TurnHasCome(e, t)
  {
    assert WaitsFor(e, e.conds[c].waking[p], c);
  }

  lemma SamePlace(e: Env, t: ThreadId, u: ThreadId)
    requires e.current < |e.threads| && t < |e.threads| && u < |e.threads| && Place(e, t) == Place(e, u)
    ensures t == u
  {
  }

  /** A candidate that waits for another condition variable leaves `c`'s queue as it is. */
  lemma QueueStays(e: Env, f: Env, g: Env, c: nat, k: nat, t: ThreadId)
    requires e.current < |e.threads| && t < |e.threads| && Place(e, t) == k && e.threads[t].blockedBy != OnCondition(c)
    requires c in e.conds && c in f.conds && c in g.conds && g.conds[c] == f.conds[c] && QueueAt(e, f, c, k)
    ensures QueueAt(e, g, c, k + 1)
  {
    NotNext(e, f, c, k, t);
  }

  /** The candidate is taken from the front of the queue it waits in. */
  lemma QueuePops(e: Env, f: Env, g: Env, c: nat, k: nat, t: ThreadId)
    requires e.current < |e.threads| && t < |e.threads| && Place(e, t) == k && WaitsFor(e, t, c)
    requires c in e.conds && c in f.conds && c in g.conds && QueueAt(e, f, c, k)
    requires f.conds[c].waking != [] && f.conds[c].waking[0] == t
    requires g.conds[c] == f.conds[c].(waking := f.conds[c].waking[1..])
    requires e.conds[c].currMutex.Some? && IsFree(e, e.conds[c].currMutex.value)
    ensures QueueAt(e, g, c, k + 1)
  {
    var w := e.conds[c].waking;
    var p := |w| - |f.conds[c].waking|;
    NextTurn(e, c, p, k);
    if InTurn(e, c, p + 1) { TurnsBefore(e, c, p + 1, p); }
    assert w[p..][1..] == w[p + 1..];
  }

  /** One more candidate looked at, and woken from a condition variable. */
  lemma {:induction false} WokenUp(e: Env, f: Env, k: nat, t: ThreadId)
    requires e.current < |e.threads| && ScannedTo(e, f, k) && t < |e.threads| && Place(e, t) == k
    requires TurnHasCome(e, t) && NextInLine(f, t)
    ensures var c := f.threads[t].blockedBy.cond;
            ScannedTo(e, Unblock(f.(conds := f.conds[c := f.conds[c].(waking := f.conds[c].waking[1..])]), t), k + 1)
  {
    hide QueueAt, TurnHasCome, InTurn;
    var c := f.threads[t].blockedBy.cond;
    var g := Unblock(f.(conds := f.conds[c := f.conds[c].(waking := f.conds[c].waking[1..])]), t);
    forall u | 0 <= u < |e.threads| ensures WokenBefore(e, u, k + 1) <==> WokenBefore(e, u, k) || u == t {
      if Place(e, u) == k { SamePlace(e, t, u); }
    }
    assert QueueAt(e, f, c, k);
    QueueMutex(e, f, c, k);
    forall d | d in e.conds ensures QueueAt(e, g, d, k + 1) {
      if d == c { QueuePops(e, f, g, c, k, t); } else { QueueStays(e, f, g, d, k, t); }
    }
  }

  lemma QueueMutex(e: Env, f: Env, c: nat, k: nat)
    requires e.current < |e.threads| && c in e.conds && c in f.conds && QueueAt(e, f, c, k)
    ensures f.conds[c].currMutex == e.conds[c].currMutex
  {
  }

  // ---------------------------------------------------------------- one candidate

  /** What looking at a candidate comes to. */
  ghost predicate ArmEnds(e: Env, t: ThreadId, initial: ThreadId, now: int, r: ArmResult)
    requires e.current < |e.threads| && t < |e.threads|
  {
    && (Ends(e, t, initial, now) <==> r.Wake? || r.ReturnNow? || r.ArmPanic?)
    && (TurnHasCome(e, t) <==> r.WakeAndGoOn?)
    && (r.ArmPanic? ==> r.why.WaitedSemaphoreMissing?)
    && (r.ArmPanic? <==> Ends(e, t, initial, now) && SemaphoreGone(e, t))
    && (r.ReturnNow? <==> Ends(e, t, initial, now) && e.threads[t].blockedBy.DeferredReturn?)
    && (r.NotYet? <==> IsAsleep(e, t) && !Ends(e, t, initial, now))
  }

  /** And what it leaves. */
  ghost predicate ArmLeaves(e: Env, f: Env, t: ThreadId, r: ArmResult)
    requires |e.threads| == |f.threads| && t < |e.threads|
  {
    && (r.NotYet? ==> e.threads[t].blockedBy == Sleeping(r.until))
    && (r.Wake? ==>
          && r.env.threads == Unblock(f, t).threads && r.env.conds == f.conds
          && r.relock == if e.threads[t].blockedBy.OnMutex? then Some(e.threads[t].blockedBy.mutex) else None)
    && (r.WakeAndGoOn? ==>
          && e.threads[t].blockedBy.OnCondition? && e.threads[t].blockedBy.cond in e.conds
          && e.conds[e.threads[t].blockedBy.cond].currMutex == Some(r.mutex))
  }

  ghost predicate ArmFor(e: Env, f: Env, t: ThreadId, initial: ThreadId, now: int, r: ArmResult)
    requires e.current < |e.threads| == |f.threads| && t < |e.threads|
  {
    ArmEnds(e, t, initial, now, r) && ArmLeaves(e, f, t, r)
  }

  predicate SemaphoreGone(e: Env, t: ThreadId) {
    t < |e.threads| && e.threads[t].blockedBy.OnSemaphore? && e.threads[t].blockedBy.sem !in e.sems
  }

  predicate IsAsleep(e: Env, t: ThreadId) {
    t < |e.threads| && e.threads[t].active && !e.threads[t].inHostFunction && e.threads[t].blockedBy.Sleeping?
  }

  lemma {:induction false} OtherArmAt(e: Env, f: Env, t: ThreadId, initial: ThreadId, now: int)
    requires e.current < |e.threads| == |f.threads| && t < |e.threads| && !e.threads[t].blockedBy.OnCondition?
    requires f.mutexes == e.mutexes && f.sems == e.sems && f.threads[t] == e.threads[t] && NothingDangles(e)
    requires forall j :: 0 <= j < |e.threads| ==>
               f.threads[j].active == e.threads[j].active && f.threads[j].returnValue == e.threads[j].returnValue
    ensures ArmEnds(e, t, initial, now, Arm(f, t, initial, now))
  {
    assert WaitOk(e, t) && !TurnHasCome(e, t);
  }

  lemma {:induction false} OtherArmLeaves(e: Env, f: Env, t: ThreadId, initial: ThreadId, now: int)
    requires |e.threads| == |f.threads| && t < |e.threads| && !e.threads[t].blockedBy.OnCondition?
    requires f.threads[t] == e.threads[t]
    ensures ArmLeaves(e, f, t, Arm(f, t, initial, now))
  {
  }

  lemma {:induction false} ConditionArmAt(e: Env, f: Env, t: ThreadId, initial: ThreadId, now: int)
    requires e.current < |e.threads| == |f.threads| && t < |e.threads| && e.threads[t].blockedBy.OnCondition?
    requires f.threads[t] == e.threads[t] && f.mutexes == e.mutexes && WaitOk(f, t)
    requires TurnHasCome(e, t) <==> NextInLine(f, t)
    requires SameMutexes(e.conds, f.conds)
    ensures ArmFor(e, f, t, initial, now, Arm(f, t, initial, now))
    ensures var r, c := Arm(f, t, initial, now), f.threads[t].blockedBy.cond;
            r.WakeAndGoOn? ==>
              NextInLine(f, t) &&
              r.env == Unblock(f.(conds := f.conds[c := f.conds[c].(waking := f.conds[c].waking[1..])]), t)
    ensures if NextInLine(f, t) then Arm(f, t, initial, now).WakeAndGoOn? else Arm(f, t, initial, now).Skip?
  {
  }

  lemma {:induction false} ScannedFacts(e: Env, f: Env, k: nat, t: ThreadId)
    requires e.current < |e.threads| && ScannedTo(e, f, k) && t < |e.threads| && Place(e, t) == k && NothingDangles(e)
    ensures f.mutexes == e.mutexes && f.sems == e.sems && |f.threads| == |e.threads| && f.threads[t] == e.threads[t]
    ensures forall j :: 0 <= j < |e.threads| ==>
               f.threads[j].active == e.threads[j].active && f.threads[j].returnValue == e.threads[j].returnValue
    ensures SameMutexes(e.conds, f.conds)
  {
    forall c | c in e.conds ensures f.conds[c].currMutex == e.conds[c].currMutex { assert QueueAt(e, f, c, k); }
  }

  lemma {:induction false} ArmAt(e: Env, f: Env, k: nat, t: ThreadId, initial: ThreadId, now: int)
    requires e.current < |e.threads| && ScannedTo(e, f, k) && t < |e.threads| && Place(e, t) == k
    requires NothingDangles(e) && NothingDangles(f)
    ensures |f.threads| == |e.threads| && ArmFor(e, f, t, initial, now, Arm(f, t, initial, now))
    ensures Arm(f, t, initial, now).WakeAndGoOn? ==> ScannedTo(e, Arm(f, t, initial, now).env, k + 1)
    ensures Arm(f, t, initial, now).Skip? || Arm(f, t, initial, now).NotYet? ==> ScannedTo(e, f, k + 1)
  {
    hide ScannedTo, TurnHasCome, Arm, ArmFor, NextInLine, Ends;
    ScannedFacts(e, f, k, t);
    assert WaitOk(f, t);
    if TurnHasCome(e, t) { TurnIsNext(e, f, k, t); }
    if NextInLine(f, t) { NextHasTurn(e, f, k, t); }
    if e.threads[t].blockedBy.OnCondition? {
      ConditionArmAt(e, f, t, initial, now);
      if TurnHasCome(e, t) { WokenUp(e, f, k, t); } else { PassedBy(e, f, k, t); }
    } else {
      OtherArmAt(e, f, t, initial, now);
      OtherArmLeaves(e, f, t, initial, now);
      assert ArmFor(e, f, t, initial, now, Arm(f, t, initial, now)) by { BothParts(e, f, t, initial, now); }
      NoTurn(e, t);
      PassedBy(e, f, k, t);
      NoGoingOn(e, f, t, initial, now);
    }
  }

  lemma BothParts(e: Env, f: Env, t: ThreadId, initial: ThreadId, now: int)
    requires e.current < |e.threads| == |f.threads| && t < |e.threads|
    requires ArmEnds(e, t, initial, now, Arm(f, t, initial, now)) && ArmLeaves(e, f, t, Arm(f, t, initial, now))
    ensures ArmFor(e, f, t, initial, now, Arm(f, t, initial, now))
  {
  }

  lemma NoTurn(e: Env, t: ThreadId)
    requires e.current < |e.threads| && t < |e.threads| && !e.threads[t].blockedBy.OnCondition?
    ensures !TurnHasCome(e, t)
  {
  }

  lemma NoGoingOn(e: Env, f: Env, t: ThreadId, initial: ThreadId, now: int)
    requires e.current < |e.threads| == |f.threads| && t < |e.threads| && !TurnHasCome(e, t)
    requires ArmFor(e, f, t, initial, now, Arm(f, t, initial, now))
    ensures !Arm(f, t, initial, now).WakeAndGoOn?
  {
  }

  // ---------------------------------------------------------------- the scan to its k-th candidate

  /** None of the first `k` candidates ends the scan. */
  ghost predicate Quiet(e: Env, initial: ThreadId, clock: Clock, k: nat)
    requires e.current < |e.threads|
  {
    forall u :: 0 <= u < |e.threads| && Place(e, u) < k ==> !Ends(e, u, initial, clock(Place(e, u)))
  }

  /** Of the condition waiters whose turn has come, `t` is the last among the first `k` candidates. */
  ghost predicate LastWoken(e: Env, t: ThreadId, k: nat)
    requires e.current < |e.threads|
  {
    WokenBefore(e, t, k) && forall u: ThreadId :: WokenBefore(e, u, k) ==> Place(e, u) <= Place(e, t)
  }

  /** `next` is the earliest end of a sleep among the first `k` candidates. */
  ghost predicate EarliestSleep(e: Env, k: nat, next: Option<int>)
    requires e.current < |e.threads|
  {
    match next
    case None => forall t: ThreadId :: IsAsleep(e, t) ==> k <= Place(e, t)
    case Some(until) =>
      && (exists t: ThreadId :: IsAsleep(e, t) && Place(e, t) < k && e.threads[t].blockedBy.until == until)
      && (forall t: ThreadId :: IsAsleep(e, t) && Place(e, t) < k ==> until <= e.threads[t].blockedBy.until)
  }

  ghost predicate FoundAt(e: Env, k: nat, found: Found)
    requires e.current < |e.threads|
  {
    && EarliestSleep(e, k, found.next)
    && match found.suitable
       case None => found.relock.None? && forall t: ThreadId :: !WokenBefore(e, t, k)
       case Some(t) =>
         && LastWoken(e, t, k)
         && e.threads[t].blockedBy.cond in e.conds && found.relock == e.conds[e.threads[t].blockedBy.cond].currMutex
  }

  lemma {:induction false} NextSleep(e: Env, k: nat, t: ThreadId, next: Option<int>)
    requires e.current < |e.threads| && t < |e.threads| && Place(e, t) == k && EarliestSleep(e, k, next)
    ensures IsAsleep(e, t) ==> EarliestSleep(e, k + 1, Earliest(next, e.threads[t].blockedBy.until))
    ensures !IsAsleep(e, t) ==> EarliestSleep(e, k + 1, next)
  {
    forall u: ThreadId | IsAsleep(e, u) && Place(e, u) < k + 1 ensures Place(e, u) < k || u == t {
      if Place(e, u) == k { SamePlace(e, t, u); }
    }
    if next.Some? {
      var u: ThreadId :| IsAsleep(e, u) && Place(e, u) < k && e.threads[u].blockedBy.until == next.value;
      assert Place(e, u) < k + 1;
    }
  }

  lemma {:induction false} NextWoken(e: Env, k: nat, t: ThreadId, found: Found, next: Found)
    requires e.current < |e.threads| && t < |e.threads| && Place(e, t) == k && FoundAt(e, k, found)
    requires EarliestSleep(e, k + 1, next.next)
    requires if TurnHasCome(e, t) then
               && e.threads[t].blockedBy.cond in e.conds
               && next.suitable == Some(t) && next.relock == e.conds[e.threads[t].blockedBy.cond].currMutex
             else next.suitable == found.suitable && next.relock == found.relock
    ensures FoundAt(e, k + 1, next)
  {
    hide EarliestSleep, TurnHasCome, Place;
    var j := k + 1;
    forall u: ThreadId ensures WokenBefore(e, u, j) <==> WokenBefore(e, u, k) || (u == t && TurnHasCome(e, t)) {
      if WokenBefore(e, u, j) && Place(e, u) == k { SamePlace(e, t, u); }
    }
    if TurnHasCome(e, t) {
      assert LastWoken(e, t, j);
    } else if found.suitable.Some? {
      assert LastWoken(e, found.suitable.value, j);
    } else {
      forall u: ThreadId ensures !WokenBefore(e, u, j) { assert !WokenBefore(e, u, k); }
    }
  }

  lemma {:induction false} Scanned(e: Env, initial: ThreadId, clock: Clock, k: nat)
    requires e.current < |e.threads| && k <= |e.threads| && NothingDangles(e) && Quiet(e, initial, clock, k)
    ensures var r := Arrival(e, initial, clock, k);
            && r.Some? && ScannedTo(e, r.value.0, k) && FoundAt(e, k, r.value.1) && WokenFrom(e, r.value.0)
            && Scan(e, initial, clock, 0, NothingFound) == Scan(r.value.0, initial, clock, k, r.value.1)
    decreases k
  {
    hide Arm, Scan, ScannedTo, FoundAt, Ends, NothingDangles;
    if k == 0 {
      NothingScanned(e);
    } else {
      Scanned(e, initial, clock, k - 1);
      var (f, found) := Arrival(e, initial, clock, k - 1).value;
      var t := Candidate(e, k - 1);
      CandidateDistance(e, k - 1, t);
      SameCandidates(e, f, k - 1);
      WakingLeavesNothingDangling(e, f);
      ArmAt(e, f, k - 1, t, initial, clock(k - 1));
      GoesTo(e, f, k - 1, t, found, initial, clock(k - 1));
    }
    ArrivalIs(e, initial, clock, k);
  }

  /** Looking at one candidate that does not end the scan leaves the right things found. */
  lemma {:induction false} GoesTo(e: Env, f: Env, k: nat, t: ThreadId, found: Found, initial: ThreadId, now: int)
    requires e.current < |e.threads| == |f.threads| && t < |e.threads| && Place(e, t) == k
    requires FoundAt(e, k, found) && !Ends(e, t, initial, now)
    requires ArmFor(e, f, t, initial, now, Arm(f, t, initial, now))
    requires Arm(f, t, initial, now).WakeAndGoOn? ==> ScannedTo(e, Arm(f, t, initial, now).env, k + 1)
    requires Arm(f, t, initial, now).Skip? || Arm(f, t, initial, now).NotYet? ==> ScannedTo(e, f, k + 1)
    ensures var r := Goes(f, t, Arm(f, t, initial, now), found);
            r.Some? && ScannedTo(e, r.value.0, k + 1) && FoundAt(e, k + 1, r.value.1)
  {
    hide Arm, ScannedTo, Ends, WokenBefore, EarliestSleep;
    NextSleep(e, k, t, found.next);
    var r := Goes(f, t, Arm(f, t, initial, now), found);
    if TurnHasCome(e, t) { TurnsCondition(e, t); }
    NextWoken(e, k, t, found, r.value.1);
  }

  lemma TurnsCondition(e: Env, t: ThreadId)
    requires e.current < |e.threads| && TurnHasCome(e, t)
    ensures e.threads[t].blockedBy.cond in e.conds && !IsAsleep(e, t)
  {
  }

  lemma NothingScanned(e: Env)
    requires e.current < |e.threads|
    ensures ScannedTo(e, e, 0) && FoundAt(e, 0, NothingFound)
  {
  }

  // ---------------------------------------------------------------- the whole scan

  /** `t` is the first candidate that ends the scan. */
  ghost predicate First(e: Env, initial: ThreadId, clock: Clock, t: ThreadId)
    requires e.current < |e.threads|
  {
    t < |e.threads| && Reached(e, initial, clock, t) && Ends(e, t, initial, clock(Place(e, t)))
  }

  /** The scan reaches `t` and finds that it need not wait any more. */
  ghost predicate Freed(e: Env, initial: ThreadId, clock: Clock, t: ThreadId)
    requires e.current < |e.threads|
  {
    t < |e.threads| && Reached(e, initial, clock, t) &&
      (Ends(e, t, initial, clock(Place(e, t))) || TurnHasCome(e, t))
  }

  ghost predicate NobodyEnds(e: Env, initial: ThreadId, clock: Clock)
    requires e.current < |e.threads|
  {
    forall t: ThreadId :: !First(e, initial, clock, t)
  }

  /** The mutex that the condition variable of a waiter is used with. */
  function MutexOf(e: Env, w: ThreadId): Option<MutexId> {
    if w < |e.threads| && e.threads[w].blockedBy.OnCondition? && e.threads[w].blockedBy.cond in e.conds
    then e.conds[e.threads[w].blockedBy.cond].currMutex else None
  }

  /** A scan that ends with thread `t` after `k` candidates has recorded mutex `id`. */
  ghost predicate Records(e: Env, t: ThreadId, k: nat, id: MutexId)
    requires e.current < |e.threads| && t < |e.threads|
  {
    if e.threads[t].blockedBy.OnMutex? then e.threads[t].blockedBy.mutex == id
    else exists w: ThreadId :: LastWoken(e, w, k) && MutexOf(e, w) == Some(id)
  }

  lemma {:induction false} FirstOrQuiet(e: Env, initial: ThreadId, clock: Clock, k: nat)
    requires e.current < |e.threads| && k <= |e.threads|
    ensures Quiet(e, initial, clock, k) || exists t: ThreadId :: First(e, initial, clock, t) && Place(e, t) < k
    decreases k
  {
    hide Ends, Place;
    if k > 0 {
      FirstOrQuiet(e, initial, clock, k - 1);
      if Quiet(e, initial, clock, k - 1) {
        var t := Candidate(e, k - 1);
        AtPlace(e, k - 1);
        if Ends(e, t, initial, clock(k - 1)) {
          assert First(e, initial, clock, t);
        } else {
          forall u | 0 <= u < |e.threads| && Place(e, u) < k ensures !Ends(e, u, initial, clock(Place(e, u))) {
            if Place(e, u) == k - 1 { SamePlace(e, t, u); }
          }
        }
      }
    }
  }

  lemma AtPlace(e: Env, k: nat)
    requires e.current < |e.threads| && k < |e.threads|
    ensures Candidate(e, k) < |e.threads| && Place(e, Candidate(e, k)) == k
  {
    CandidateDistance(e, k, e.current);
  }

  /** Whom a scan frees that is ended by its first candidate to do so. */
  lemma {:induction false} FreedBefore(e: Env, initial: ThreadId, clock: Clock, t: ThreadId, u: ThreadId)
    requires e.current < |e.threads| && First(e, initial, clock, t)
    ensures Freed(e, initial, clock, u) <==> u == t || WokenBefore(e, u, Place(e, t))
  {
    hide Ends, TurnHasCome, Place;
    if u < |e.threads| && u != t {
      if Place(e, u) == Place(e, t) { SamePlace(e, t, u); }
    }
  }

  lemma FreedByNobody(e: Env, initial: ThreadId, clock: Clock, u: ThreadId)
    requires e.current < |e.threads| && Quiet(e, initial, clock, |e.threads|)
    ensures Freed(e, initial, clock, u) <==> WokenBefore(e, u, |e.threads|)
    ensures !First(e, initial, clock, u)
  {
  }

  /** The blocks a scan leaves: those it frees are free, but for a thread that is to return. */
  ghost predicate ScanFrees(e: Env, initial: ThreadId, clock: Clock, f: Env)
    requires e.current < |e.threads|
  {
    && |f.threads| == |e.threads|
    && forall u: ThreadId :: u < |e.threads| ==>
         f.threads[u].blockedBy == if Freed(e, initial, clock, u) && !e.threads[u].blockedBy.DeferredReturn?
           then NotBlocked else e.threads[u].blockedBy
  }

  ghost predicate RelockOk(e: Env, t: ThreadId, k: nat, relock: Option<MutexId>)
    requires e.current < |e.threads| && t < |e.threads|
  {
    forall id: MutexId :: relock == Some(id) <==> Records(e, t, k, id)
  }

  lemma {:induction false} FoundRecords(e: Env, t: ThreadId, k: nat, found: Found, relock: Option<MutexId>)
    requires e.current < |e.threads| && t < |e.threads| && FoundAt(e, k, found)
    requires relock == if e.threads[t].blockedBy.OnMutex? then Some(e.threads[t].blockedBy.mutex) else None
    ensures RelockOk(e, t, k, if relock.Some? then relock else found.relock)
  {
    hide EarliestSleep, TurnHasCome, Place, MutexOf;
    if found.suitable.Some? {
      var w := found.suitable.value;
      LastIsWoken(e, w, k);
      assert found.relock == MutexOf(e, w) by { MutexOfWaiter(e, w); }
      forall v: ThreadId | LastWoken(e, v, k) ensures v == w {
        LastIsWoken(e, v, k);
        SamePlace(e, w, v);
      }
    }
  }

  lemma MutexOfWaiter(e: Env, w: ThreadId)
    requires w < |e.threads| && e.threads[w].blockedBy.OnCondition? && e.threads[w].blockedBy.cond in e.conds
    ensures MutexOf(e, w) == e.conds[e.threads[w].blockedBy.cond].currMutex
  {
  }

  lemma {:induction false} FirstScan(e: Env, initial: ThreadId, clock: Clock, t: ThreadId)
    requires e.current < |e.threads| && First(e, initial, clock, t) && NothingDangles(e)
    ensures var r := Scan(e, initial, clock, 0, NothingFound);
            match r
            case ScanPanic(why) => why.WaitedSemaphoreMissing? && SemaphoreGone(e, t)
            case Idle(_, _) => false
            case ReturnTo(f, u) =>
              && u == t && e.threads[t].blockedBy.DeferredReturn?
              && ScanFrees(e, initial, clock, f) && QueuesAt(e, f, Place(e, t))
            case Picked(f, u, relock) =>
              && u == t && !e.threads[t].blockedBy.DeferredReturn? && !SemaphoreGone(e, t)
              && ScanFrees(e, initial, clock, f) && QueuesAt(e, f, Place(e, t)) && RelockOk(e, t, Place(e, t), relock)
  {
    hide Arm, ScanFrees, RelockOk, Place, FoundAt, NothingDangles, Ends, ScannedTo;
    var k := Place(e, t);
    assert Quiet(e, initial, clock, k);
    Scanned(e, initial, clock, k);
    var (f, found) := Arrival(e, initial, clock, k).value;
    WakingLeavesNothingDangling(e, f);
    ArmAt(e, f, k, t, initial, clock(k));
    PlaceCandidate(e, f, t);
    var r := Arm(f, t, initial, clock(k));
    FirstLeaves(e, f, initial, clock, t, r);
    if r.Wake? { FoundRecords(e, t, k, found, r.relock); }
  }

  lemma PlaceCandidate(e: Env, f: Env, t: ThreadId)
    requires e.current == f.current < |e.threads| == |f.threads| && t < |e.threads|
    ensures Candidate(f, Place(e, t)) == t
  {
    CandidateDistance(f, 0, t);
  }

  lemma {:induction false} FirstLeaves(e: Env, f: Env, initial: ThreadId, clock: Clock, t: ThreadId, r: ArmResult)
    requires e.current < |e.threads| == |f.threads| && First(e, initial, clock, t) && ScannedTo(e, f, Place(e, t))
    requires ArmFor(e, f, t, initial, clock(Place(e, t)), r)
    ensures r.Wake? ==> ScanFrees(e, initial, clock, r.env) && QueuesAt(e, r.env, Place(e, t))
    ensures r.ReturnNow? ==> ScanFrees(e, initial, clock, f) && QueuesAt(e, f, Place(e, t))
    ensures r.Wake? || r.ReturnNow? || r.ArmPanic?
  {
    hide Freed, Ends, Place, TurnHasCome, First;
    FirstEnds(e, initial, clock, t);
    forall u: ThreadId ensures Freed(e, initial, clock, u) <==> u == t || WokenBefore(e, u, Place(e, t)) {
      FreedBefore(e, initial, clock, t, u);
    }
    forall u: ThreadId | WokenBefore(e, u, Place(e, t)) ensures !e.threads[u].blockedBy.DeferredReturn? {
      WokenWaits(e, u);
    }
  }

  lemma FirstEnds(e: Env, initial: ThreadId, clock: Clock, t: ThreadId)
    requires e.current < |e.threads| && First(e, initial, clock, t)
    ensures t < |e.threads| && Ends(e, t, initial, clock(Place(e, t)))
  {
  }

  lemma {:induction false} QuietScanIs(e: Env, initial: ThreadId, clock: Clock)
    requires e.current < |e.threads| && NobodyEnds(e, initial, clock) && NothingDangles(e)
    ensures var r, n := Scan(e, initial, clock, 0, NothingFound), |e.threads|;
            match r
            case Picked(f, t, relock) =>
              && t < n && LastWoken(e, t, n) && RelockOk(e, t, n, relock)
              && ScanFrees(e, initial, clock, f) && QueuesAt(e, f, n)
            case Idle(f, next) =>
              && EarliestSleep(e, n, next) && (forall u: ThreadId :: !WokenBefore(e, u, n))
              && ScanFrees(e, initial, clock, f) && QueuesAt(e, f, n)
            case _ => false
  {
    hide Arm, RelockOk, Place, NothingDangles, EarliestSleep, LastWoken;
    var n := |e.threads|;
    FirstOrQuiet(e, initial, clock, n);
    Scanned(e, initial, clock, n);
    var (f, found) := Arrival(e, initial, clock, n).value;
    QuietLeaves(e, f, initial, clock);
    if found.suitable.Some? {
      assert WokenBefore(e, found.suitable.value, n) by { LastIsWoken(e, found.suitable.value, n); }
      FoundRecords(e, found.suitable.value, n, found, None);
    }
  }

  lemma LastIsWoken(e: Env, t: ThreadId, k: nat)
    requires e.current < |e.threads| && LastWoken(e, t, k)
    ensures WokenBefore(e, t, k) && t < |e.threads| && e.threads[t].blockedBy.OnCondition?
  {
  }

  lemma {:induction false} QuietLeaves(e: Env, f: Env, initial: ThreadId, clock: Clock)
    requires e.current < |e.threads| == |f.threads| && Quiet(e, initial, clock, |e.threads|)
    requires ScannedTo(e, f, |e.threads|)
    ensures ScanFrees(e, initial, clock, f) && QueuesAt(e, f, |e.threads|)
  {
    hide Freed, Ends, Place, TurnHasCome;
    forall u: ThreadId ensures Freed(e, initial, clock, u) <==> WokenBefore(e, u, |e.threads|) {
      FreedByNobody(e, initial, clock, u);
    }
    forall u: ThreadId | WokenBefore(e, u, |e.threads|) ensures !e.threads[u].blockedBy.DeferredReturn? {
      WokenWaits(e, u);
    }
  }

  lemma WokenWaits(e: Env, u: ThreadId)
    requires e.current < |e.threads| && TurnHasCome(e, u)
    ensures u < |e.threads| && e.threads[u].blockedBy.OnCondition?
  {
  }

  // ---------------------------------------------------------------- the decision

  /** The decision is for `t`: it ends the scan, or nobody does and it is the last condition waiter woken. */
  ghost predicate Resumes(e: Env, initial: ThreadId, clock: Clock, t: ThreadId)
    requires e.current < |e.threads|
  {
    t < |e.threads| &&
      (First(e, initial, clock, t) || (NobodyEnds(e, initial, clock) && LastWoken(e, t, |e.threads|)))
  }

  /** Thread `t` resumes, not in order to return, and mutex `id` was recorded by then. */
  ghost predicate Takes(e: Env, initial: ThreadId, clock: Clock, t: ThreadId, id: MutexId)
    requires e.current < |e.threads|
  {
    && Resumes(e, initial, clock, t) && !e.threads[t].blockedBy.DeferredReturn?
    && Records(e, t, if First(e, initial, clock, t) then Place(e, t) else |e.threads|, id)
  }

  /** A thread for whom the decision is, if there is one. */
  lemma {:induction false} SomebodyResumes(e: Env, initial: ThreadId, clock: Clock)
    requires e.current < |e.threads|
    ensures || (exists t: ThreadId :: First(e, initial, clock, t))
            || (NobodyEnds(e, initial, clock) && Quiet(e, initial, clock, |e.threads|))
  {
    hide First, Quiet;
    FirstOrQuiet(e, initial, clock, |e.threads|);
    if forall t: ThreadId :: !First(e, initial, clock, t) {
      assert NobodyEnds(e, initial, clock);
    }
  }

  /** What the scan finds for the thread that resumes. */
  lemma {:induction false} ResumedScan(e: Env, initial: ThreadId, clock: Clock, t: ThreadId)
    requires e.current < |e.threads| && NothingDangles(e) && Resumes(e, initial, clock, t)
    ensures var r := Scan(e, initial, clock, 0, NothingFound);
            match r
            case ScanPanic(why) => why.WaitedSemaphoreMissing? && SemaphoreGone(e, t)
            case Idle(_, _) => false
            case ReturnTo(f, u) => u == t && e.threads[t].blockedBy.DeferredReturn? && ScanFrees(e, initial, clock, f)
            case Picked(f, u, relock) =>
              && u == t && !e.threads[t].blockedBy.DeferredReturn? && !SemaphoreGone(e, t)
              && ScanFrees(e, initial, clock, f)
              && forall id: MutexId :: relock == Some(id) <==> Takes(e, initial, clock, t, id)
  {
    hide First, Records, ScanFrees, LastWoken, NothingDangles;
    if First(e, initial, clock, t) {
      FirstScan(e, initial, clock, t);
    } else {
      QuietScanIs(e, initial, clock);
      LastIsWoken(e, t, |e.threads|);
      var r := Scan(e, initial, clock, 0, NothingFound);
      if r.Picked? { OneLast(e, t, r.thread, |e.threads|); }
    }
  }

  lemma OneLast(e: Env, t: ThreadId, u: ThreadId, k: nat)
    requires e.current < |e.threads| && LastWoken(e, t, k) && LastWoken(e, u, k)
    ensures t == u
  {
    SamePlace(e, t, u);
  }

  /** The recorded mutex is free. */
  lemma {:induction false} RecordedIsFree(e: Env, initial: ThreadId, clock: Clock, t: ThreadId, id: MutexId)
    requires e.current < |e.threads| && Takes(e, initial, clock, t, id)
    ensures IsFree(e, id)
  {
    hide Place, LastWoken, First, NobodyEnds;
    if e.threads[t].blockedBy.OnMutex? {
      if First(e, initial, clock, t) {
        FirstEnds(e, initial, clock, t);
      } else {
        LastIsWoken(e, t, |e.threads|);
      }
    } else {
      var k := if First(e, initial, clock, t) then Place(e, t) else |e.threads|;
      var w: ThreadId :| LastWoken(e, w, k) && MutexOf(e, w) == Some(id);
      LastIsWoken(e, w, k);
    }
  }

  lemma {:induction false} GoesOnWithout(e: Env, initial: ThreadId, clock: Clock, f: Env, t: ThreadId)
    requires e.current < |e.threads| && Scan(e, initial, clock, 0, NothingFound) == Picked(f, t, None)
    requires f.current < |f.threads| && t < |f.threads|
    requires f.threads[f.current].context.None? && (t != f.current ==> f.threads[t].context.Some?)
    ensures var d := Decide(e, initial, clock);
            && d.Resume? && d.env.current == t && |d.env.threads| == |f.threads| && d.env.mutexes == f.mutexes
            && forall u :: 0 <= u < |f.threads| ==> d.env.threads[u].blockedBy == f.threads[u].blockedBy
  {
    hide Scan, SwitchThread;
    if t != f.current { SwitchIs(f, t); }
  }

  /** The mutex tables before and after a decision for `t`. */
  ghost predicate LocksAfter(a: Env, initial: ThreadId, clock: Clock, t: ThreadId, b: Env)
    requires a.current < |a.threads|
  {
    && b.mutexes.Keys == a.mutexes.Keys
    && forall id :: id in a.mutexes ==>
         && b.mutexes[id].kind == a.mutexes[id].kind
         && b.mutexes[id].locked ==
              if Takes(a, initial, clock, t, id) then Some(Lock(t, 1)) else a.mutexes[id].locked
  }

  /** Thread `t` would have to take a mutex that has been destroyed. */
  ghost predicate MutexGone(e: Env, initial: ThreadId, clock: Clock, t: ThreadId)
    requires e.current < |e.threads|
  {
    exists id: MutexId :: Takes(e, initial, clock, t, id) && id !in e.mutexes
  }

  /** What a decision for `t`, other than a return, comes to. */
  ghost predicate Resumed(e: Env, initial: ThreadId, clock: Clock, t: ThreadId, d: Decision)
    requires e.current < |e.threads|
  {
    if MutexGone(e, initial, clock, t) then d == Stop(RelockFailed)
    else
      && d.Resume? && d.env.current == t && ScanFrees(e, initial, clock, d.env)
      && LocksAfter(e, initial, clock, t, d.env)
  }

  lemma {:induction false} DecideResumes(e: Env, initial: ThreadId, clock: Clock, f: Env, t: ThreadId,
          relock: Option<MutexId>)
    requires e.current < |e.threads| && Resumes(e, initial, clock, t) && WokenFrom(e, f)
    requires Scan(e, initial, clock, 0, NothingFound) == Picked(f, t, relock)
    requires forall id: MutexId :: relock == Some(id) <==> Takes(e, initial, clock, t, id)
    requires ScanFrees(e, initial, clock, f) && t < |f.threads|
    requires f.threads[f.current].context.None? && (t != f.current ==> f.threads[t].context.Some?)
    ensures Resumed(e, initial, clock, t, Decide(e, initial, clock))
  {
    hide Decide, Scan, Freed, Resumes, Takes;
    if relock.None? {
      GoesOnWithout(e, initial, clock, f, t);
    } else {
      RecordedIsFree(e, initial, clock, t, relock.value);
      TakesMutex(e, initial, clock, f, t, relock.value);
    }
  }

  lemma {:induction false} DecideReturnsBlocks(e: Env, initial: ThreadId, clock: Clock)
    requires e.current < |e.threads| && Decide(e, initial, clock).ReturnToCaller?
    requires ScanFrees(e, initial, clock, Scan(e, initial, clock, 0, NothingFound).env)
    ensures var d := Decide(e, initial, clock).env;
            && initial < |e.threads| == |d.threads| && d.mutexes == e.mutexes && d.current == initial
            && forall u: ThreadId :: u < |e.threads| ==>
                 d.threads[u].blockedBy == if u == initial || Freed(e, initial, clock, u) then NotBlocked
                   else e.threads[u].blockedBy
  {
    hide Decide, Scan, Freed;
    DecideReturns(e, initial, clock);
    var f := Scan(e, initial, clock, 0, NothingFound).env;
    forall u | 0 <= u < |e.threads| && e.threads[u].blockedBy.DeferredReturn? && Freed(e, initial, clock, u)
      ensures u == initial
    {
      FreedReturns(e, initial, clock, u);
    }
  }

  lemma FreedReturns(e: Env, initial: ThreadId, clock: Clock, u: ThreadId)
    requires e.current < |e.threads| && Freed(e, initial, clock, u) && e.threads[u].blockedBy.DeferredReturn?
    ensures u == initial
  {
  }

  // ---------------------------------------------------------------- the theorems

  /** The blocks after a decision: exactly the threads it frees wait no more, and all others wait as before. */
  ghost predicate FreesExactly(e: Env, initial: ThreadId, clock: Clock, n: Env)
    requires e.current < |e.threads|
  {
    && |n.threads| == |e.threads|
    && forall u: ThreadId :: u < |e.threads| ==>
         n.threads[u].blockedBy == if Freed(e, initial, clock, u) then NotBlocked else e.threads[u].blockedBy
  }

  lemma {:induction false} OneFirst(e: Env, initial: ThreadId, clock: Clock, t: ThreadId, u: ThreadId)
    requires e.current < |e.threads| && First(e, initial, clock, t) && First(e, initial, clock, u)
    ensures t == u
  {
    hide Ends, Place;
    if Place(e, t) == Place(e, u) { SamePlace(e, t, u); }
  }

  /** A deferred return that is due ends the scan itself. */
  lemma {:induction false} FreesNoReturn(e: Env, initial: ThreadId, clock: Clock, t: ThreadId, f: Env)
    requires e.current < |e.threads| && Resumes(e, initial, clock, t) && !e.threads[t].blockedBy.DeferredReturn?
    requires ScanFrees(e, initial, clock, f)
    ensures FreesExactly(e, initial, clock, f)
  {
    hide Ends, Place, TurnHasCome;
    forall u: ThreadId | Freed(e, initial, clock, u) ensures !e.threads[u].blockedBy.DeferredReturn? {
      if e.threads[u].blockedBy.DeferredReturn? {
        NoTurn(e, u);
        assert First(e, initial, clock, u);
        if First(e, initial, clock, t) { OneFirst(e, initial, clock, t, u); }
      }
    }
  }

  lemma {:induction false} ReturnFrees(e: Env, initial: ThreadId, clock: Clock, t: ThreadId)
    requires e.current < |e.threads| && NothingDangles(e) && Resumes(e, initial, clock, t)
    requires e.threads[t].blockedBy.DeferredReturn? && Decide(e, initial, clock).ReturnToCaller?
    ensures var d := Decide(e, initial, clock).env;
            FreesExactly(e, initial, clock, d) && d.current == t == initial && d.mutexes == e.mutexes
  {
    hide Decide, Scan, Freed, Resumes;
    ResumedScan(e, initial, clock, t);
    DecideReturnsBlocks(e, initial, clock);
    ReturnedIsFreed(e, initial, clock, t);
  }

  /** The return itself changes only the flag of the thread that returns. */
  lemma {:induction false} ReturnStep(m: Machine, clock: Clock)
    requires Inv(m) && m.phase.Deciding?
    requires Scan(m.env, Top(m.frames).initial, clock, 0, NothingFound).ReturnTo?
    ensures var n, d := Step(m, Schedule(clock)), Decide(m.env, Top(m.frames).initial, clock);
            && !n.phase.Stopped? && ReturnedProperly(m, n) && d.ReturnToCaller?
            && n.env.current == d.env.current && n.env.mutexes == d.env.mutexes && |n.env.threads| == |d.env.threads|
            && forall u :: 0 <= u < |d.env.threads| ==> n.env.threads[u].blockedBy == d.env.threads[u].blockedBy
  {
    hide Decide, Scan, ReturnedProperly, Leave;
    ReturnToKeeps(m, clock);
    ReturnToIsReady(m, clock);
    LeaveIs(m, Decide(m.env, Top(m.frames).initial, clock).env);
  }

  lemma ReturnedIsFreed(e: Env, initial: ThreadId, clock: Clock, t: ThreadId)
    requires e.current < |e.threads| && Resumes(e, initial, clock, t) && e.threads[t].blockedBy.DeferredReturn?
    ensures t == initial && Freed(e, initial, clock, t)
  {
    hide LastWoken;
    if !First(e, initial, clock, t) { LastIsWoken(e, t, |e.threads|); }
  }

  lemma {:induction false} DecideForThread(e: Env, initial: ThreadId, clock: Clock, t: ThreadId)
    requires e.current < |e.threads| && NothingDangles(e) && Resumes(e, initial, clock, t)
    requires !e.threads[t].blockedBy.DeferredReturn?
    requires e.threads[e.current].context.None? && (t != e.current ==> e.threads[t].context.Some?)
    ensures var d := Decide(e, initial, clock);
            if SemaphoreGone(e, t) then d == Stop(WaitedSemaphoreMissing)
            else if MutexGone(e, initial, clock, t) then d == Stop(RelockFailed)
            else
              && d.Resume? && d.env.current == t
              && FreesExactly(e, initial, clock, d.env) && LocksAfter(e, initial, clock, t, d.env)
  {
    hide Decide, Scan, Resumes, Takes, Freed, NothingDangles, FreesExactly, LocksAfter, ScanFrees, MutexGone;
    hide QueuesAt;
    ResumedIsFreed(e, initial, clock, t);
    ResumedScan(e, initial, clock, t);
    if SemaphoreGone(e, t) {
      PanicStops(e, initial, clock);
    } else {
      var Picked(f, u, relock) := Scan(e, initial, clock, 0, NothingFound);
      PickedContexts(e, initial, clock, f, t, relock);
      DecideResumes(e, initial, clock, f, t, relock);
      if !MutexGone(e, initial, clock, t) {
        FreesNoReturn(e, initial, clock, t, Decide(e, initial, clock).env);
      }
    }
  }

  /**
   The decision for a thread that resumes. It stops the emulator exactly if that thread waited for a
   semaphore that is gone, or would have to take a mutex that is. Otherwise it frees exactly the
   threads the scan reaches and finds free, makes that thread current, and gives it exactly the mutex
   recorded; and the thread runs on, or its activation returns.
   */
  lemma {:induction false} DecisionForThread(m: Machine, clock: Clock, t: ThreadId)
    requires Inv(m) && m.phase.Deciding? && Resumes(m.env, Top(m.frames).initial, clock, t)
    ensures var n, initial := Step(m, Schedule(clock)), Top(m.frames).initial;
            if SemaphoreGone(m.env, t) then n.phase == Stopped(WaitedSemaphoreMissing)
            else if MutexGone(m.env, initial, clock, t) then n.phase == Stopped(RelockFailed)
            else
              && FreesExactly(m.env, initial, clock, n.env) && LocksAfter(m.env, initial, clock, t, n.env)
              && n.env.current == t
              && if m.env.threads[t].blockedBy.DeferredReturn? then ReturnedProperly(m, n)
                 else n.phase.Guest? && n.frames == m.frames
  {
    hide Decide, Scan, Resumes, Takes, Freed, ReturnedProperly, Leave, QueuesAt, StacksOk;
    var e, initial := m.env, Top(m.frames).initial;
    InvariantLeavesNothingDangling(m);
    ResumedIsFreed(e, initial, clock, t);
    assert ThreadOk(m, m.env.current) && ThreadOk(m, t);
    if e.threads[t].blockedBy.DeferredReturn? {
      ResumedScan(e, initial, clock, t);
      ReturnStep(m, clock);
      ReturnFrees(e, initial, clock, t);
      SameBlocks(e, initial, clock, Decide(e, initial, clock).env, Step(m, Schedule(clock)).env);
      TakesNothing(e, initial, clock, t);
    } else {
      DecideForThread(e, initial, clock, t);
    }
  }

  lemma PanicStops(e: Env, initial: ThreadId, clock: Clock)
    requires e.current < |e.threads| && Scan(e, initial, clock, 0, NothingFound).ScanPanic?
    ensures Decide(e, initial, clock) == Stop(Scan(e, initial, clock, 0, NothingFound).why)
  {
  }

  lemma ResumedIsFreed(e: Env, initial: ThreadId, clock: Clock, t: ThreadId)
    requires e.current < |e.threads| && Resumes(e, initial, clock, t)
    ensures t < |e.threads| && Freed(e, initial, clock, t)
  {
    if !First(e, initial, clock, t) { SomebodyResumes(e, initial, clock); }
  }

  lemma SameBlocks(e: Env, initial: ThreadId, clock: Clock, d: Env, n: Env)
    requires e.current < |e.threads| && FreesExactly(e, initial, clock, d) && |n.threads| == |d.threads|
    requires forall u :: 0 <= u < |d.threads| ==> n.threads[u].blockedBy == d.threads[u].blockedBy
    ensures FreesExactly(e, initial, clock, n)
  {
  }

  lemma TakesNothing(e: Env, initial: ThreadId, clock: Clock, t: ThreadId)
    requires e.current < |e.threads| && t < |e.threads| && e.threads[t].blockedBy.DeferredReturn?
    ensures !MutexGone(e, initial, clock, t)
    ensures forall id: MutexId :: !Takes(e, initial, clock, t, id)
  {
  }

  lemma {:induction false} PickedContexts(e: Env, initial: ThreadId, clock: Clock, f: Env, t: ThreadId,
          relock: Option<MutexId>)
    requires e.current < |e.threads| && t < |e.threads|
    requires e.threads[e.current].context.None? && (t != e.current ==> e.threads[t].context.Some?)
    requires Scan(e, initial, clock, 0, NothingFound) == Picked(f, t, relock)
    ensures WokenFrom(e, f) && f.current == e.current < |f.threads| && t < |f.threads|
    ensures f.threads[f.current].context.None? && (t != f.current ==> f.threads[t].context.Some?)
  {
    hide Scan;
    ScanWakes(e, initial, clock, 0, NothingFound);
    assert SameOrWoken(e.threads[t], f.threads[t]) && SameOrWoken(e.threads[f.current], f.threads[f.current]);
  }

  lemma {:induction false} DecideForNobody(e: Env, initial: ThreadId, clock: Clock)
    requires e.current < |e.threads| && NothingDangles(e)
    requires forall t: ThreadId :: !Resumes(e, initial, clock, t)
    ensures var d := Decide(e, initial, clock);
            if exists t: ThreadId :: IsAsleep(e, t) then
              && d.Retry? && d.env.current == e.current && d.env.mutexes == e.mutexes
              && FreesExactly(e, initial, clock, d.env)
            else d == Stop(Deadlock)
    ensures forall u: ThreadId :: !Freed(e, initial, clock, u)
  {
    hide Scan, LastWoken, First, WokenBefore, IsAsleep, Freed, Resumes;
    ScanWakes(e, initial, clock, 0, NothingFound);
    NobodyResumes(e, initial, clock);
    QuietScanIs(e, initial, clock);
    var r := Scan(e, initial, clock, 0, NothingFound);
    if r.Picked? {
      LastResumes(e, initial, clock, r.thread);
    } else {
      forall u: ThreadId ensures !Freed(e, initial, clock, u) { FreedByNobody(e, initial, clock, u); }
      EarliestIs(e, r.next);
    }
  }

  lemma LastResumes(e: Env, initial: ThreadId, clock: Clock, t: ThreadId)
    requires e.current < |e.threads| && t < |e.threads| && NobodyEnds(e, initial, clock)
    requires LastWoken(e, t, |e.threads|)
    ensures Resumes(e, initial, clock, t)
  {
  }

  lemma FirstResumes(e: Env, initial: ThreadId, clock: Clock, t: ThreadId)
    requires e.current < |e.threads| && First(e, initial, clock, t)
    ensures Resumes(e, initial, clock, t)
  {
  }

  /**
   The decision when nobody can resume: if some thread sleeps everything stays as it is and the scan
   is repeated; if none does, that is a deadlock.
   */
  lemma {:induction false} DecisionForNobody(m: Machine, clock: Clock)
    requires Inv(m) && m.phase.Deciding?
    requires forall t: ThreadId :: !Resumes(m.env, Top(m.frames).initial, clock, t)
    ensures var n := Step(m, Schedule(clock));
            if exists t: ThreadId :: IsAsleep(m.env, t) then
              && n.phase.Deciding? && n.frames == m.frames && n.env.current == m.env.current
              && n.env.mutexes == m.env.mutexes && FreesExactly(m.env, Top(m.frames).initial, clock, n.env)
            else n.phase == Stopped(Deadlock)
    ensures forall u: ThreadId :: !Freed(m.env, Top(m.frames).initial, clock, u)
  {
    hide Decide, IsAsleep, Freed, Resumes;
    InvariantLeavesNothingDangling(m);
    DecideForNobody(m.env, Top(m.frames).initial, clock);
  }

  lemma {:induction false} NobodyResumes(e: Env, initial: ThreadId, clock: Clock)
    requires e.current < |e.threads| && forall t: ThreadId :: !Resumes(e, initial, clock, t)
    ensures NobodyEnds(e, initial, clock) && Quiet(e, initial, clock, |e.threads|)
  {
    hide First, Quiet, LastWoken, Resumes;
    SomebodyResumes(e, initial, clock);
    if t: ThreadId :| First(e, initial, clock, t) { FirstResumes(e, initial, clock, t); }
  }

  lemma EarliestIs(e: Env, next: Option<int>)
    requires e.current < |e.threads| && EarliestSleep(e, |e.threads|, next)
    ensures next.Some? <==> exists t: ThreadId :: IsAsleep(e, t)
  {
  }

  /** Every decision that does not stop the emulator frees exactly the threads its scan reaches and finds free. */
  lemma {:induction false} DecisionFreesExactly(m: Machine, clock: Clock)
    requires Inv(m) && m.phase.Deciding? && !Step(m, Schedule(clock)).phase.Stopped?
    ensures FreesExactly(m.env, Top(m.frames).initial, clock, Step(m, Schedule(clock)).env)
  {
    hide Step, Resumes, FreesExactly, StacksOk, ThreadOk;
    if t: ThreadId :| Resumes(m.env, Top(m.frames).initial, clock, t) {
      DecisionForThread(m, clock, t);
    } else {
      DecisionForNobody(m, clock);
    }
  }

  /** A sleeper goes on exactly if the scan reaches it and reads the clock no earlier than its deadline. */
  lemma {:induction false} SleeperWakesIff(m: Machine, clock: Clock, t: ThreadId, until: int)
    requires Inv(m) && m.phase.Deciding? && !Step(m, Schedule(clock)).phase.Stopped?
    requires t < |m.env.threads| && m.env.threads[t].blockedBy == Sleeping(until)
    ensures var n, e := Step(m, Schedule(clock)), m.env;
            && t < |n.env.threads|
            && n.env.threads[t].blockedBy ==
                 if Reached(e, Top(m.frames).initial, clock, t) && until <= clock(Place(e, t)) then NotBlocked
                 else Sleeping(until)
  {
    hide Step, Reached, Place;
    DecisionFreesExactly(m, clock);
    assert ThreadOk(m, t);
  }

  /** What the scheduler sleeps for when nobody can run: until the first sleeper is due. */
  lemma {:induction false} SleepsUntilEarliest(m: Machine, clock: Clock)
    requires Inv(m) && m.phase.Deciding? && Scan(m.env, Top(m.frames).initial, clock, 0, NothingFound).Idle?
    ensures match Scan(m.env, Top(m.frames).initial, clock, 0, NothingFound).next
            case None => forall t: ThreadId :: !IsAsleep(m.env, t)
            case Some(until) =>
              && (exists t: ThreadId :: IsAsleep(m.env, t) && m.env.threads[t].blockedBy.until == until)
              && (forall t: ThreadId :: IsAsleep(m.env, t) ==> until <= m.env.threads[t].blockedBy.until)
  {
    hide Scan, Place, IsAsleep, First;
    var e, initial := m.env, Top(m.frames).initial;
    InvariantLeavesNothingDangling(m);
    if t: ThreadId :| First(e, initial, clock, t) {
      FirstScan(e, initial, clock, t);
    } else {
      QuietScanIs(e, initial, clock);
      EarliestOfAll(e, Scan(e, initial, clock, 0, NothingFound).next);
    }
  }

  lemma EarliestOfAll(e: Env, next: Option<int>)
    requires e.current < |e.threads| && EarliestSleep(e, |e.threads|, next)
    ensures match next
            case None => forall t: ThreadId :: !IsAsleep(e, t)
            case Some(until) =>
              && (exists t: ThreadId :: IsAsleep(e, t) && e.threads[t].blockedBy.until == until)
              && (forall t: ThreadId :: IsAsleep(e, t) ==> until <= e.threads[t].blockedBy.until)
  {
    if next.Some? {
      var t: ThreadId :|
        IsAsleep(e, t) && Place(e, t) < |e.threads| && e.threads[t].blockedBy.until == next.value;
    }
  }

  // ---------------------------------------------------------------- memory and semaphores

  /** Memory with the joinee's return value where thread `t`, if it is a joiner, asked for it. */
  function MemoryFor(e: Env, t: ThreadId): map<u32, u32>
    requires t < |e.threads|
  {
    match e.threads[t].blockedBy
    case Joining(j, ptr) =>
      if ptr != 0 && j < |e.threads| && e.threads[j].returnValue.Some?
      then e.mem[ptr := e.threads[j].returnValue.value] else e.mem
    case _ => e.mem
  }

  /** The semaphores with one token less in the one that thread `t` waits for; the source takes the wrong waiter out. */
  function SemaphoresFor(e: Env, t: ThreadId): map<nat, Sem>
    requires t < |e.threads|
  {
    match e.threads[t].blockedBy
    case OnSemaphore(s) =>
      if s in e.sems then e.sems[s := Sem(e.sems[s].value - 1, e.sems[s].waiting - {e.current})] else e.sems
    case _ => e.sems
  }

  predicate TouchedFor(e: Env, t: ThreadId, f: Env) {
    t < |e.threads| && f.mem == MemoryFor(e, t) && f.sems == SemaphoresFor(e, t)
  }

  lemma {:induction false} ArmTouches(e: Env, i: ThreadId, initial: ThreadId, now: int)
    requires i < |e.threads|
    ensures Arm(e, i, initial, now).Wake? ==> TouchedFor(e, i, Arm(e, i, initial, now).env)
    ensures Arm(e, i, initial, now).ReturnNow? ==> TouchedFor(e, i, e)
  {
  }

  lemma {:induction false} GoingOnTouches(e: Env, i: ThreadId, initial: ThreadId, now: int)
    requires i < |e.threads| && Arm(e, i, initial, now).WakeAndGoOn?
    ensures var f := Arm(e, i, initial, now).env;
            && f.mem == e.mem && f.sems == e.sems && f.current == e.current && e.threads[i].blockedBy.OnCondition?
            && f.threads == e.threads[i := e.threads[i].(blockedBy := NotBlocked)]
  {
  }

  lemma {:induction false} TouchedAfterWaking(e: Env, e1: Env, i: ThreadId, t: ThreadId, f: Env)
    requires i < |e.threads| && e.threads[i].blockedBy.OnCondition? && e1.mem == e.mem && e1.sems == e.sems
    requires e1.threads == e.threads[i := e.threads[i].(blockedBy := NotBlocked)] && e1.current == e.current
    requires TouchedFor(e1, t, f)
    ensures TouchedFor(e, t, f)
  {
  }

  lemma {:induction false} ScanTouches(e: Env, initial: ThreadId, clock: Clock, k: nat, found: Found)
    requires 0 < |e.threads| && k <= |e.threads|
    requires found.suitable.Some? ==> found.suitable.value < |e.threads| && Runnable(e.threads[found.suitable.value])
    ensures match Scan(e, initial, clock, k, found)
            case Picked(f, t, _) => TouchedFor(e, t, f)
            case ReturnTo(f, t) => TouchedFor(e, t, f)
            case Idle(f, _) => f.mem == e.mem && f.sems == e.sems
            case ScanPanic(_) => true
    decreases |e.threads| - k
  {
    hide Arm, Candidate;
    if k < |e.threads| {
      var i := Candidate(e, k);
      CandidateIsThread(e, k);
      ArmTouches(e, i, initial, clock(k));
      ArmWakes(e, i, initial, clock(k));
      match Arm(e, i, initial, clock(k))
      case Skip => ScanTouches(e, initial, clock, k + 1, found);
      case NotYet(until) => ScanTouches(e, initial, clock, k + 1, found.(next := Earliest(found.next, until)));
      case WakeAndGoOn(e1, id) =>
        GoingOnTouches(e, i, initial, clock(k));
        var found1 := found.(suitable := Some(i), relock := Some(id));
        ScanTouches(e1, initial, clock, k + 1, found1);
        var r := Scan(e1, initial, clock, k + 1, found1);
        if r.Picked? || r.ReturnTo? { TouchedAfterWaking(e, e1, i, r.thread, r.env); }
      case _ =>
    }
  }

  lemma CandidateIsThread(e: Env, k: nat)
    requires 0 < |e.threads|
    ensures Candidate(e, k) < |e.threads|
  {
  }

  lemma {:induction false} PickTouchesNothing(e1: Env, t: ThreadId, relock: Option<MutexId>)
    requires e1.current < |e1.threads| && t < |e1.threads| && (t != e1.current ==> SwitchThread(e1, t).Fine?)
    ensures var e2 := if t != e1.current then SwitchThread(e1, t).env else e1;
            && e2.mem == e1.mem && e2.sems == e1.sems && e2.current == t && |e2.threads| == |e1.threads|
            && (relock.Some? && RelockMutex(e2, relock.value).Fine? ==>
                 var e3 := RelockMutex(e2, relock.value).env;
                 e3.mem == e1.mem && e3.sems == e1.sems && e3.current == t)
  {
    var e2 := if t != e1.current then SwitchThread(e1, t).env else e1;
    if relock.Some? && RelockMutex(e2, relock.value).Fine? { RelockIs(e2, relock.value); }
  }

  lemma {:induction false} DecideTouches(e: Env, initial: ThreadId, clock: Clock)
    requires e.current < |e.threads| && !Decide(e, initial, clock).Stop?
    ensures var d := Decide(e, initial, clock);
            if d.Retry? then d.env.mem == e.mem && d.env.sems == e.sems else TouchedFor(e, d.env.current, d.env)
  {
    hide Scan, SwitchThread, RelockMutex, TouchedFor;
    ScanWakes(e, initial, clock, 0, NothingFound);
    ScanTouches(e, initial, clock, 0, NothingFound);
    var r := Scan(e, initial, clock, 0, NothingFound);
    var d := Decide(e, initial, clock).env;
    if r.Picked? {
      PickTouchesNothing(r.env, r.thread, r.relock);
      SameTouched(e, r.thread, r.env, d);
    } else if r.ReturnTo? {
      SwitchTouchesNothing(Unblock(r.env, r.thread), r.thread);
      SameTouched(e, r.thread, r.env, d);
    }
  }

  lemma SwitchTouchesNothing(e: Env, t: ThreadId)
    requires e.current < |e.threads| && t < |e.threads| && SwitchThread(e, t).Fine?
    ensures var e2 := SwitchThread(e, t).env; e2.mem == e.mem && e2.sems == e.sems && e2.current == t
  {
  }

  lemma SameTouched(e: Env, t: ThreadId, a: Env, b: Env)
    requires a.mem == b.mem && a.sems == b.sems
    ensures TouchedFor(e, t, a) == TouchedFor(e, t, b)
  {
  }

  /**
   What else a decision changes: for a joiner that resumes, the word it asked for; for a waiter on a
   semaphore, one token of that semaphore; and otherwise neither memory nor any semaphore.
   */
  lemma {:induction false} DecisionTouchesOnly(m: Machine, clock: Clock)
    requires Inv(m) && m.phase.Deciding? && !Step(m, Schedule(clock)).phase.Stopped?
    ensures var n := Step(m, Schedule(clock));
            if n.phase.Deciding? then n.env.mem == m.env.mem && n.env.sems == m.env.sems
            else TouchedFor(m.env, n.env.current, n.env)
  {
    hide Step, Decide, Resumes, FreesExactly, StacksOk, ThreadOk;
    StepTouches(m, clock);
    DecideTouches(m.env, Top(m.frames).initial, clock);
    if t: ThreadId :| Resumes(m.env, Top(m.frames).initial, clock, t) {
      DecisionForThread(m, clock, t);
    } else {
      InvariantLeavesNothingDangling(m);
      DecideForNobody(m.env, Top(m.frames).initial, clock);
      DecisionForNobody(m, clock);
    }
  }

  lemma {:induction false} StepTouches(m: Machine, clock: Clock)
    requires Inv(m) && m.phase.Deciding? && !Step(m, Schedule(clock)).phase.Stopped?
    ensures var n, d := Step(m, Schedule(clock)), Decide(m.env, Top(m.frames).initial, clock);
            && !d.Stop? && n.env.mem == d.env.mem && n.env.sems == d.env.sems && n.env.current == d.env.current
            && (d.Retry? ==> n.phase.Deciding?)
  {
    hide Decide, StacksOk, ThreadOk;
  }
}
