/** Registers and contexts over whole runs (src/environment.rs:679-716, 888-902). */
module Registers {
  import opened Prelude
  import opened Threads
  import opened Scheduler
  import opened Runs
  import opened RunInvariant
  import opened Waiters

  /** The registers of thread `t`, wherever they are kept at the moment. */
  function RegistersOf(e: Env, t: ThreadId): Option<Cpu>
    requires t < |e.threads|
  {
    if t == e.current then Some(e.cpu) else e.threads[t].context
  }

  /** In every reachable state exactly one thread, the current one, has no stored context. */
  lemma OneContextMissing(m: Machine, t: ThreadId)
    requires Inv(m) && t < |m.env.threads|
    ensures m.env.threads[t].context.None? <==> t == m.env.current
    ensures RegistersOf(m.env, t).Some?
  {
    assert ThreadOk(m, t);
  }

  lemma SwitchKeepsRegisters(e: Env, t: ThreadId, u: ThreadId)
    requires e.current < |e.threads| && t < |e.threads| && u < |e.threads| && SwitchThread(e, t).Fine?
    requires e.threads[e.current].context.None?
    ensures |SwitchThread(e, t).env.threads| == |e.threads| &&
            RegistersOf(SwitchThread(e, t).env, u) == RegistersOf(e, u)
  {
    SwitchIs(e, t);
  }

  /** A scheduling decision moves register files around; it never changes one. */
  lemma DecideKeepsRegisters(e: Env, initial: ThreadId, clock: Clock, u: ThreadId)
    requires e.current < |e.threads| && u < |e.threads| && e.threads[e.current].context.None?
    ensures var d := Decide(e, initial, clock);
            !d.Stop? ==> |d.env.threads| == |e.threads| && RegistersOf(d.env, u) == RegistersOf(e, u)
  {
    ScanWakes(e, initial, clock, 0, NothingFound);
    var r := Scan(e, initial, clock, 0, NothingFound);
    if r.Picked? {
      assert SameOrWoken(e.threads[u], r.env.threads[u]) && SameOrWoken(e.threads[e.current], r.env.threads[e.current]);
      ResumeKeepsRegisters(r.env, r.thread, r.relock, u);
    } else if r.ReturnTo? {
      assert SameOrWoken(e.threads[u], r.env.threads[u]) && SameOrWoken(e.threads[e.current], r.env.threads[e.current]);
      var e2 := Unblock(r.env, r.thread);
      if SwitchThread(e2, r.thread).Fine? { SwitchKeepsRegisters(e2, r.thread, u); }
    } else if r.Idle? {
      assert SameOrWoken(e.threads[u], r.env.threads[u]);
    }
  }

  lemma ResumeKeepsRegisters(e1: Env, t: ThreadId, relock: Option<MutexId>, u: ThreadId)
    requires e1.current < |e1.threads| && t < |e1.threads| && u < |e1.threads| && e1.threads[e1.current].context.None?
    ensures t != e1.current && SwitchThread(e1, t).Fine? ==>
              |SwitchThread(e1, t).env.threads| == |e1.threads| &&
                RegistersOf(SwitchThread(e1, t).env, u) == RegistersOf(e1, u)
    ensures var e2 := if t != e1.current && SwitchThread(e1, t).Fine? then SwitchThread(e1, t).env else e1;
            e2.current < |e2.threads| && relock.Some? && RelockMutex(e2, relock.value).Fine? ==>
              |RelockMutex(e2, relock.value).env.threads| == |e1.threads| &&
              RegistersOf(RelockMutex(e2, relock.value).env, u) == RegistersOf(e1, u)
  {
    if t != e1.current && SwitchThread(e1, t).Fine? { SwitchKeepsRegisters(e1, t, u); }
    var e2 := if t != e1.current && SwitchThread(e1, t).Fine? then SwitchThread(e1, t).env else e1;
    if e2.current < |e2.threads| && relock.Some? && RelockMutex(e2, relock.value).Fine? { RelockIs(e2, relock.value); }
  }

  /** Only bit 5 of CPSR changes. */
  lemma ThumbFlagIs(cpsr: u32, thumb: bool)
    ensures var d := WithThumbFlag(cpsr, thumb);
            d / 0x40 == cpsr / 0x40 && d % 0x20 == cpsr % 0x20 && d / 0x20 % 2 == if thumb then 1 else 0
  {
    var q, r := cpsr / 0x40, cpsr % 0x20;
    var d := WithThumbFlag(cpsr, thumb);
    assert d == 0x20 * (2 * q + if thumb then 1 else 0) + r;
  }

  /** A branch goes to the address without its lowest bit, which becomes bit 5 of CPSR; all else stays. */
  lemma BranchGoesTo(c: Cpu, f: u32)
    ensures var d := Branch(c, f);
            && d.regs == c.regs[15 := f / 2 * 2]
            && d.cpsr / 0x20 % 2 == f % 2
            && d.cpsr / 0x40 == c.cpsr / 0x40 && d.cpsr % 0x20 == c.cpsr % 0x20
  {
    hide WithThumbFlag;
    ThumbFlagIs(c.cpsr, IsThumb(f));
  }

  /** What a thread is created with, and that nobody else's registers move. */
  lemma CreationIsIsolated(e: Env, start: u32, userData: u32, size: u32, base: u32)
    requires e.current < |e.threads| && e.threads[e.current].context.None? &&
             NewThread(e, start, userData, size, base).Fine?
    ensures var Fine(n, t) := NewThread(e, start, userData, size, base);
            && t == |e.threads| && |n.threads| == t + 1 && n.current == e.current
            && (forall u :: 0 <= u < |e.threads| ==> RegistersOf(n, u) == RegistersOf(e, u))
            && RegistersOf(n, t).Some?
            && var c := RegistersOf(n, t).value;
               && c.regs[13] == base + size && c.regs[13] % 4 == 0 && c.regs[0] == userData
               && c.regs[15] == start - start % 2 && c.regs[14] == e.threadExitRoutine
               && c.cpsr == 0x10 + (if start % 2 == 1 then 0x20 else 0)
               && (forall r :: 0 < r < 13 ==> c.regs[r] == 0)
  {
    NewThreadIs(e, start, userData, size, base);
  }

  lemma {:induction false} MutexOpsKeepCpu(e: Env, id: MutexId, kind: MutexType)
    requires e.current < |e.threads|
    ensures LockMutex(e, id).Fine? ==> LockMutex(e, id).env.cpu == e.cpu
    ensures UnlockMutex(e, id).Fine? ==> UnlockMutex(e, id).env.cpu == e.cpu
    ensures InitMutex(e, kind).Fine? ==> InitMutex(e, kind).env.cpu == e.cpu
    ensures DestroyMutex(e, id).Fine? ==> DestroyMutex(e, id).env.cpu == e.cpu
  {
  }

  lemma {:induction false} ConditionWaitKeepsCpu(e: Env, c: nat, id: MutexId)
    requires e.current < |e.threads|
    ensures CondWait(e, c, id).Fine? ==> CondWait(e, c, id).env.cpu == e.cpu
  {
    hide UnlockMutex;
    MutexOpsKeepCpu(e, id, Normal);
  }

  lemma {:induction false} HostEventKeepsCpu(m: Machine, e: Event)
    requires m.env.current < |m.env.threads| && HostEvent(e) && !e.Create? && !e.HostCpu?
    ensures HostStep(m, e).env.cpu == m.env.cpu
  {
    hide LockMutex, UnlockMutex, InitMutex, DestroyMutex, CondWait;
    match e
    case MutexInit(kind) => MutexOpsKeepCpu(m.env, 0, kind);
    case MutexLock(id) => MutexOpsKeepCpu(m.env, id, Normal);
    case MutexUnlock(id) => MutexOpsKeepCpu(m.env, id, Normal);
    case MutexDestroy(id) => MutexOpsKeepCpu(m.env, id, Normal);
    case ConditionWait(c, id) => ConditionWaitKeepsCpu(m.env, c, id);
    case _ =>
  }

  lemma ScheduleKeepsRegisters(m: Machine, clock: Clock, u: ThreadId)
    requires m.env.current < |m.env.threads| && m.frames != [] && m.env.threads[m.env.current].context.None?
    requires u < |m.env.threads| && !Scheduled(m, clock).phase.Stopped?
    ensures |Scheduled(m, clock).env.threads| == |m.env.threads| &&
            RegistersOf(Scheduled(m, clock).env, u) == RegistersOf(m.env, u)
  {
    DecideKeepsRegisters(m.env, Top(m.frames).initial, clock, u);
  }

  lemma HostEventRegisters(m: Machine, e: Event, u: ThreadId)
    requires m.env.current < |m.env.threads| && m.env.threads[m.env.current].context.None? && HostEvent(e)
    requires !m.phase.Stopped? && !HostStep(m, e).phase.Stopped? && u < |m.env.threads|
    ensures u < |HostStep(m, e).env.threads|
    ensures RegistersOf(HostStep(m, e).env, u) == if u == m.env.current && e.HostCpu? then Some(e.cpu)
            else RegistersOf(m.env, u)
  {
    if e.Create? {
      CreationIsIsolated(m.env, e.start, e.userData, e.size, e.base);
    } else {
      HostEventMoves(m, e);
      if !e.HostCpu? { HostEventKeepsCpu(m, e); }
    }
  }

  /** Registers change only by the running thread's own instructions, or by host code acting on the current thread. */
  lemma OnlyTheCurrentThreadsRegistersChange(m: Machine, e: Event, u: ThreadId)
    requires Inv(m) && Enabled(m, e) && !Step(m, e).phase.Stopped? && u < |m.env.threads|
    ensures u < |Step(m, e).env.threads|
    ensures RegistersOf(Step(m, e).env, u) ==
            (if u == m.env.current && e.Ran? then Some(e.cpu)
             else if u == m.env.current && e.HostCpu? then Some(e.cpu)
             else RegistersOf(m.env, u))
  {
    assert ThreadOk(m, m.env.current);
    if e.Schedule? {
      ScheduleKeepsRegisters(m, e.clock, u);
    } else if HostEvent(e) {
      HostEventRegisters(m, e, u);
    } else {
      GuestStepMoves(m, e);
    }
  }
}
