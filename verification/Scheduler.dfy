/**
 One scheduling decision: the inner `loop` of `run_inner` (src/environment.rs:1121-1263).
 The scan visits every thread once, in cyclic order from the one after the current thread.
 Every arm that wakes a thread ends the scan, except the condition-variable arm, which records
 the thread and its mutex and goes on scanning.
 */
module Scheduler {
  import opened Prelude
  import opened Threads

  /** `clock(k)` is what the k-th reading of the clock in this scan returns. */
  type Clock = nat -> int

  datatype ArmResult =
    | Skip
    | NotYet(until: int)
    | Wake(env: Env, relock: Option<MutexId>)        // `break`
    | WakeAndGoOn(env: Env, mutex: MutexId)          // the Condition arm
    | ReturnNow
    | ArmPanic(why: Panic)

  function Unblock(e: Env, t: ThreadId): Env
    requires t < |e.threads|
  {
    SetBlock(e, t, NotBlocked)
  }

  /** The `match candidate.blocked_by` for thread `i`. */
  function Arm(e: Env, i: ThreadId, initial: ThreadId, now: int): ArmResult
    requires i < |e.threads|
  {
    var th := e.threads[i];
    if !th.active || th.inHostFunction then Skip
    else
      match th.blockedBy
      case Sleeping(until) => if until <= now then Wake(Unblock(e, i), None) else NotYet(until)
      case OnMutex(id) => if !MutexIsLocked(e, id) then Wake(Unblock(e, i), Some(id)) else Skip
      case OnSemaphore(s) =>
        if s !in e.sems then ArmPanic(WaitedSemaphoreMissing)
        else if e.sems[s].value > 0 then
          // the source removes the current thread, not the woken one, from `waiting`
          var taken := Sem(e.sems[s].value - 1, e.sems[s].waiting - {e.current});
          Wake(Unblock(e.(sems := e.sems[s := taken]), i), None)
        else Skip
      case OnCondition(c) =>
        if c !in e.conds then ArmPanic(WaitedConditionMissing)
        else if e.conds[c].currMutex.None? then ArmPanic(ConditionWithoutMutex)
        else if e.conds[c].waking != [] && e.conds[c].waking[0] == i &&
          !MutexIsLocked(e, e.conds[c].currMutex.value) then
          var popped := e.conds[c].(waking := e.conds[c].waking[1..]);
          WakeAndGoOn(Unblock(e.(conds := e.conds[c := popped]), i), e.conds[c].currMutex.value)
        else Skip
      case Joining(j, ptr) =>
        if j >= |e.threads| then ArmPanic(UnknownThread)
        else if e.threads[j].active then Skip
        else if ptr == 0 then Wake(Unblock(e, i), None)
        else if e.threads[j].returnValue.None? then ArmPanic(ReturnValueMissing)
        else Wake(Unblock(e.(mem := e.mem[ptr := e.threads[j].returnValue.value]), i), None)
      case DeferredReturn => if i == initial then ReturnNow else Skip
      case NotBlocked => Wake(e, None)
  }

  /** `suitable_thread`, `next_awakening` and `mutex_to_relock`. */
  datatype Found = Found(suitable: Option<ThreadId>, next: Option<int>, relock: Option<MutexId>)

  const NothingFound: Found := Found(None, None, None)

  datatype ScanResult =
    | Picked(env: Env, thread: ThreadId, relock: Option<MutexId>)
    | ReturnTo(env: Env, thread: ThreadId)
    | Idle(env: Env, next: Option<int>)
    | ScanPanic(why: Panic)

  function Candidate(e: Env, k: nat): ThreadId
    requires |e.threads| > 0
  {
    (e.current + 1 + k) % |e.threads|
  }

  function Earliest(next: Option<int>, until: int): Option<int> {
    match next
    case None => Some(until)
    case Some(other) => Some(if until < other then until else other)
  }

  /** The `for` loop from its k-th iteration on. */
  function Scan(e: Env, initial: ThreadId, clock: Clock, k: nat, found: Found): ScanResult
    requires 0 < |e.threads| && k <= |e.threads|
    decreases |e.threads| - k
  {
    if k == |e.threads| then
      match found.suitable
      case Some(t) => Picked(e, t, found.relock)
      case None => Idle(e, found.next)
    else
      var i := Candidate(e, k);
      match Arm(e, i, initial, clock(k))
      case Skip => Scan(e, initial, clock, k + 1, found)
      case NotYet(until) => Scan(e, initial, clock, k + 1, found.(next := Earliest(found.next, until)))
      case Wake(e', relock) => Picked(e', i, if relock.Some? then relock else found.relock)
      case WakeAndGoOn(e', id) => Scan(e', initial, clock, k + 1, found.(suitable := Some(i), relock := Some(id)))
      case ReturnNow => ReturnTo(e, i)
      case ArmPanic(why) => ScanPanic(why)
  }

  datatype Decision =
    | Resume(env: Env)               // leave the scheduling loop, run the current thread
    | ReturnToCaller(env: Env)       // `run_inner` returns
    | Retry(env: Env)                // everything is blocked but something sleeps: scan again
    | Stop(why: Panic)

  function Decide(e: Env, initial: ThreadId, clock: Clock): Decision
    requires e.current < |e.threads|
  {
    match Scan(e, initial, clock, 0, NothingFound)
    case ScanPanic(why) => Stop(why)
    case Idle(e1, next) => if next.Some? then Retry(e1) else Stop(Deadlock)
    case ReturnTo(e1, t) =>
      if t >= |e1.threads| || e1.current >= |e1.threads| then Stop(UnknownThread)
      else (match SwitchThread(Unblock(e1, t), t)
            case Panicked(why) => Stop(why)
            case Fine(e2, _) => ReturnToCaller(e2))
    case Picked(e1, t, relock) =>
      if t >= |e1.threads| || e1.current >= |e1.threads| then Stop(UnknownThread)
      else
        (match (if t != e1.current then SwitchThread(e1, t) else Fine(e1, ()))
         case Panicked(why) => Stop(why)
         case Fine(e2, _) =>
           match relock
           case None => Resume(e2)
           case Some(id) =>
             if e2.current >= |e2.threads| then Stop(UnknownThread)
             else
               match RelockMutex(e2, id)
               case Panicked(why) => Stop(why)
               case Fine(e3, _) => Resume(e3))
  }

  // ---------------------------------------------------------------- what a scan may change

  /** A thread between the start of a scan and now: itself, or woken up. */
  predicate SameOrWoken(a: Thread, b: Thread) {
    b == a ||
    (a.active && !a.inHostFunction && !a.blockedBy.NotBlocked? && !a.blockedBy.DeferredReturn? &&
      b == a.(blockedBy := NotBlocked))
  }

  /** Thread `t` is in one of the queues of condition variable `c`, which knows its mutex. */
  predicate Queued(e: Env, c: nat, t: ThreadId) {
    c in e.conds && e.conds[c].currMutex.Some? && (t in e.conds[c].waiting || t in e.conds[c].waking)
  }

  /** The same condition variables, used with the same mutexes. */
  predicate SameMutexes(a: map<nat, Cond>, b: map<nat, Cond>) {
    b.Keys == a.Keys && forall c :: c in a ==> b[c].currMutex == a[c].currMutex
  }

  /** `b` is `a` after waking some threads: nothing but blocks, semaphores, conditions and join results differ. */
  ghost predicate WokenFrom(a: Env, b: Env) {
    && |b.threads| == |a.threads|
    && b.current == a.current && b.cpu == a.cpu && b.mutexes == a.mutexes && b.mutexCount == a.mutexCount
    && b.heap == a.heap && b.threadExitRoutine == a.threadExitRoutine
    && b.sems.Keys == a.sems.Keys && SameMutexes(a.conds, b.conds)
    && (forall t :: 0 <= t < |a.threads| ==> SameOrWoken(a.threads[t], b.threads[t]))
    && (forall c: nat, t: ThreadId :: Queued(a, c, t) && t < |b.threads| && b.threads[t].blockedBy == OnCondition(c) ==>
       Queued(b, c, t))
  }

  predicate Runnable(th: Thread) {
    th.active && !th.inHostFunction && th.blockedBy.NotBlocked?
  }

  lemma WokenTransitive(a: Env, b: Env, c: Env)
    requires WokenFrom(a, b) && WokenFrom(b, c)
    ensures WokenFrom(a, c)
  {
    forall t | 0 <= t < |a.threads| ensures SameOrWoken(a.threads[t], c.threads[t]) {
      assert SameOrWoken(a.threads[t], b.threads[t]) && SameOrWoken(b.threads[t], c.threads[t]);
    }
  }

  /** Unblocking one waiting thread, with the effects on semaphores, conditions and memory that may come with it. */
  lemma UnblockWakes(e: Env, e1: Env, i: ThreadId)
    requires i < |e.threads| && e.threads[i].active && !e.threads[i].inHostFunction
    requires !e.threads[i].blockedBy.NotBlocked? && !e.threads[i].blockedBy.DeferredReturn?
    requires e1 == e.(sems := e1.sems, conds := e1.conds, mem := e1.mem)
    requires e1.sems.Keys == e.sems.Keys && SameMutexes(e.conds, e1.conds)
    requires forall c: nat, t: ThreadId :: Queued(e, c, t) && t != i ==> Queued(e1, c, t)
    ensures WokenFrom(e, Unblock(e1, i)) && Runnable(Unblock(e1, i).threads[i])
  {
  }

  lemma SemaphoreArm(e: Env, i: ThreadId, s: nat)
    requires i < |e.threads| && e.threads[i].active && !e.threads[i].inHostFunction &&
             e.threads[i].blockedBy == OnSemaphore(s)
    requires s in e.sems && e.sems[s].value > 0
    ensures Arm(e, i, 0, 0).Wake? && WokenFrom(e, Arm(e, i, 0, 0).env) && Runnable(Arm(e, i, 0, 0).env.threads[i])
  {
    UnblockWakes(e, e.(sems := e.sems[s := Sem(e.sems[s].value - 1, e.sems[s].waiting - {e.current})]), i);
  }

  lemma ConditionArm(e: Env, i: ThreadId)
    requires i < |e.threads| && Arm(e, i, 0, 0).WakeAndGoOn?
    ensures e.threads[i].blockedBy.OnCondition?
    ensures WokenFrom(e, Arm(e, i, 0, 0).env) && Runnable(Arm(e, i, 0, 0).env.threads[i])
  {
    var c := e.threads[i].blockedBy.cond;
    var popped := e.(conds := e.conds[c := e.conds[c].(waking := e.conds[c].waking[1..])]);
    forall d: nat, t: ThreadId | Queued(e, d, t) && t != i ensures Queued(popped, d, t) {
      assert e.conds[c].waking == [i] + e.conds[c].waking[1..];
    }
    UnblockWakes(e, popped, i);
  }

  lemma ArmWakes(e: Env, i: ThreadId, initial: ThreadId, now: int)
    requires i < |e.threads|
    ensures Arm(e, i, initial, now).Wake? ==>
              WokenFrom(e, Arm(e, i, initial, now).env) && Runnable(Arm(e, i, initial, now).env.threads[i])
    ensures Arm(e, i, initial, now).WakeAndGoOn? ==>
              && e.threads[i].blockedBy.OnCondition?
              && WokenFrom(e, Arm(e, i, initial, now).env) && Runnable(Arm(e, i, initial, now).env.threads[i])
    ensures Arm(e, i, initial, now).ReturnNow? ==>
              i == initial && e.threads[i].active && e.threads[i].blockedBy.DeferredReturn?
  {
    var th := e.threads[i];
    var r := Arm(e, i, initial, now);
    if r.WakeAndGoOn? {
      ConditionArm(e, i);
    } else if r.Wake? {
      match th.blockedBy
      case Sleeping(_) => UnblockWakes(e, e, i);
      case OnMutex(_) => UnblockWakes(e, e, i);
      case OnSemaphore(s) => SemaphoreArm(e, i, s);
      case Joining(j, ptr) =>
        UnblockWakes(e, if ptr == 0 then e else e.(mem := e.mem[ptr := e.threads[j].returnValue.value]), i);
      case NotBlocked =>
    }
  }

  /** What any scan leaves behind, whatever it wakes. */
  ghost predicate ScanOutcome(e: Env, initial: ThreadId, r: ScanResult) {
    match r
    case Picked(e', t, _) => WokenFrom(e, e') && t < |e.threads| && Runnable(e'.threads[t])
    case ReturnTo(e', t) =>
      t == initial && WokenFrom(e, e') && t < |e.threads| &&
      e'.threads[t] == e.threads[t] && e.threads[t].active && e.threads[t].blockedBy.DeferredReturn?
    case Idle(e', _) => WokenFrom(e, e')
    case ScanPanic(_) => true
  }

  lemma OutcomeTransitive(a: Env, b: Env, initial: ThreadId, r: ScanResult)
    requires WokenFrom(a, b) && ScanOutcome(b, initial, r)
    ensures ScanOutcome(a, initial, r)
  {
    match r
    case Picked(c, _, _) => WokenTransitive(a, b, c);
    case Idle(c, _) => WokenTransitive(a, b, c);
    case ReturnTo(c, t) => WokenTransitive(a, b, c); assert SameOrWoken(a.threads[t], b.threads[t]);
    case ScanPanic(_) =>
  }

  lemma {:induction false} ScanWakes(e: Env, initial: ThreadId, clock: Clock, k: nat, found: Found)
    requires 0 < |e.threads| && k <= |e.threads|
    requires found.suitable.Some? ==> found.suitable.value < |e.threads| && Runnable(e.threads[found.suitable.value])
    ensures ScanOutcome(e, initial, Scan(e, initial, clock, k, found))
    decreases |e.threads| - k
  {
    if k == |e.threads| {
      assert WokenFrom(e, e);
    } else {
      var i := Candidate(e, k);
      var r := Arm(e, i, initial, clock(k));
      ArmWakes(e, i, initial, clock(k));
      if r.Skip? {
        ScanWakes(e, initial, clock, k + 1, found);
      } else if r.NotYet? {
        ScanWakes(e, initial, clock, k + 1, found.(next := Earliest(found.next, r.until)));
      } else if r.WakeAndGoOn? {
        var found1 := found.(suitable := Some(i), relock := Some(r.mutex));
        ScanWakes(r.env, initial, clock, k + 1, found1);
        OutcomeTransitive(e, r.env, initial, Scan(r.env, initial, clock, k + 1, found1));
      } else if r.ReturnNow? {
        assert WokenFrom(e, e);
      }
    }
  }
}
