/**
 Concrete runs, for the properties that fail on some of them. The threads of a `World` have run no
 instruction that matters, so a state is given by what each thread waits for, which thread is
 current, and the tables.
 */
module Scenarios {
  import opened Prelude
  import opened Threads
  import opened Scheduler
  import opened Runs
  import opened RunInvariant

  /** `es` is possible from `m`, and leads to `n`. */
  ghost predicate Leads(m: Machine, es: seq<Event>, n: Machine) {
    Legal(m, es) && Run(m, es) == n
  }

  lemma {:induction false} OneStep(m: Machine, e: Event)
    requires !m.phase.Stopped? && m.env.current < |m.env.threads| && Enabled(m, e)
    ensures Leads(m, [e], Step(m, e))
  {
    hide Step, Enabled;
    var n := Step(m, e);
    assert [e][1..] == [] && Run(n, []) == n && Legal(n, []);
  }

  lemma {:induction false} Follows(a: Machine, es: seq<Event>, b: Machine, fs: seq<Event>, c: Machine)
    requires Leads(a, es, b) && Leads(b, fs, c)
    ensures Leads(a, es + fs, c)
    decreases |es|
  {
    hide Step, Enabled;
    if es == [] {
      assert es + fs == fs;
    } else {
      Follows(Step(a, es[0]), es[1..], b, fs, c);
      assert (es + fs)[1..] == es[1..] + fs;
    }
  }

  lemma {:induction false} LeadsIs(m: Machine, es: seq<Event>, n: Machine)
    requires Leads(m, es, n)
    ensures Legal(m, es) && Run(m, es) == n
  {
  }

  lemma {:induction false} LeadsToGood(m: Machine, es: seq<Event>, n: Machine)
    requires Inv(m) && Leads(m, es, n)
    ensures Good(n)
  {
    RunKeeps(m, es);
  }

  // ---------------------------------------------------------------- worlds

  datatype Situation = Situation(
    blocks: seq<Block>,
    current: ThreadId,
    mutexes: map<MutexId, Mutex>,
    mutexCount: nat,
    sems: map<nat, Sem>,
    conds: map<nat, Cond>)

  const PAGE: u32 := 4096

  predicate Small(s: Situation) { s.current < |s.blocks| <= 16 }

  function StackOf(t: ThreadId): u32
    requires t <= 16
  {
    PAGE * t
  }

  /** Registers of a thread that has not run yet. */
  function ContextOf(t: ThreadId): Cpu
    requires t <= 16
  {
    if t == 0 then FreshContext else StartCpu(0, 0, StackOf(t) + PAGE, 0)
  }

  function ThreadOf(s: Situation, t: ThreadId, inHost: bool): Thread
    requires t < |s.blocks| <= 16
  {
    Thread(true, s.blocks[t], t != 0, None, inHost && t == s.current,
           if t == s.current then None else Some(ContextOf(t)), Some(StackOf(t)))
  }

  function HeapOf(n: nat): map<u32, u32>
    requires n <= 16
  {
    if n <= 1 then map[] else HeapOf(n - 1)[StackOf(n - 1) := PAGE]
  }

  function World(s: Situation, phase: Phase): Machine
    requires Small(s)
  {
    Machine(
      Env(seq(|s.blocks|, t requires 0 <= t < |s.blocks| => ThreadOf(s, t, phase.Host?)), s.current,
        ContextOf(s.current),
          s.mutexes, s.mutexCount, s.sems, s.conds, map[], HeapOf(|s.blocks|), 0),
      [Frame(0, true, false, if phase.Host? then Some(HostCall(s.current, false)) else None)],
      phase,
      seq(|s.blocks|, t requires 0 <= t < |s.blocks| => StackOf(t)),
      [])
  }

  const SEM: nat := 5

  const Alone: Situation := Situation([NotBlocked], 0, map[], 0, map[], map[])

  /** The emulator starts, and runs thread 0. */
  lemma Begins()
    ensures Leads(Start(FreshContext, 0, 0), [RunRoot], World(Alone, Guest))
  {
    var m := Start(FreshContext, 0, 0);
    OneStep(m, RunRoot);
    assert Step(m, RunRoot) == World(Alone, Guest);
  }

  /** A host function that does one thing. */
  function Calls(e: Event): seq<Event> { [CallHost, e, HostReturn] }

  function PhaseOf(s: Situation): Phase
    requires Small(s)
  {
    if s.blocks[s.current].NotBlocked? then Guest else Deciding
  }

  lemma {:induction false} CallsHost(s: Situation, e: Event, t: Situation)
    requires Small(s) && s.blocks[s.current].NotBlocked? && Small(t) && t.current == s.current
    requires HostEvent(e) && Enabled(World(s, Host), e) && Step(World(s, Host), e) == World(t, Host)
    ensures Leads(World(s, Guest), Calls(e), World(t, PhaseOf(t)))
  {
    EntersHost(s);
    OneStep(World(s, Guest), CallHost);
    OneStep(World(s, Host), e);
    LeavesHost(t);
    OneStep(World(t, Host), HostReturn);
    Follows(World(s, Guest), [CallHost], World(s, Host), [e], World(t, Host));
    Follows(World(s, Guest), [CallHost] + [e], World(t, Host), [HostReturn], World(t, PhaseOf(t)));
    assert Calls(e) == [CallHost] + [e] + [HostReturn];
  }

  lemma EntersHost(s: Situation)
    requires Small(s) && s.blocks[s.current].NotBlocked?
    ensures Step(World(s, Guest), CallHost) == World(s, Host)
  {
  }

  lemma LeavesHost(s: Situation)
    requires Small(s)
    ensures Step(World(s, Host), HostReturn) == World(s, PhaseOf(s))
  {
  }

  lemma BlocksIn(s: Situation, b: Block)
    requires Small(s)
    ensures SetBlock(World(s, Host).env, s.current, b) == World(s.(blocks := s.blocks[s.current := b]), Host).env
  {
    var t := s.(blocks := s.blocks[s.current := b]);
    assert SetBlock(World(s, Host).env, s.current, b).threads == World(t, Host).env.threads;
  }

  lemma SameBirths(s: Situation, t: Situation)
    requires Small(s) && Small(t) && |s.blocks| == |t.blocks|
    ensures World(s, Host).born == World(t, Host).born && World(s, Host).env.heap == World(t, Host).env.heap
  {
  }

  lemma YieldsSlice(s: Situation)
    requires Small(s)
    ensures Leads(World(s, Guest), [TimeSliceOver], World(s, Deciding))
  {
    OneStep(World(s, Guest), TimeSliceOver);
  }

  lemma DecidingIsOpen(s: Situation, clock: Clock)
    requires Small(s)
    ensures var m := World(s, Deciding);
            !m.phase.Stopped? && m.env.current < |m.env.threads| && Enabled(m, Schedule(clock))
  {
  }

  lemma Switches(s: Situation, phase: Phase, t: ThreadId)
    requires Small(s) && t < |s.blocks| && t != s.current && !phase.Host?
    ensures SwitchThread(World(s, phase).env, t) == Fine(World(s.(current := t), phase).env, ())
  {
    var e, n := World(s, phase).env, World(s.(current := t), phase).env;
    SwitchIs(e, t);
    assert SwitchThread(e, t).env.threads == n.threads;
  }

  /** The k-th candidate of the scan. */
  function Nth(s: Situation, k: nat): ThreadId
    requires Small(s)
  {
    (s.current + 1 + k) % |s.blocks|
  }

  /** The `for` loop has nothing for the first `k` candidates, and a ready thread for the next. */
  ghost predicate FirstReady(s: Situation, k: nat, t: ThreadId) {
    && Small(s) && k < |s.blocks| && t == Nth(s, k) && t != s.current && s.blocks[t].NotBlocked?
    && forall j :: 0 <= j < k ==> Offers(s, Nth(s, j)) == Skip
  }

  function Offers(s: Situation, t: ThreadId): ArmResult
    requires Small(s) && t < |s.blocks|
  {
    Arm(World(s, Deciding).env, t, 0, 0)
  }

  lemma OffersAtAnyTime(s: Situation, t: ThreadId, now: int)
    requires Small(s) && t < |s.blocks| && !s.blocks[t].Sleeping?
    ensures Arm(World(s, Deciding).env, t, 0, now) == Offers(s, t)
    ensures s.blocks[t].NotBlocked? ==> Offers(s, t) == Wake(World(s, Deciding).env, None)
  {
  }

  lemma {:induction false} SkipsTo(s: Situation, clock: Clock, k: nat, t: ThreadId, j: nat)
    requires FirstReady(s, k, t) && j <= k
    requires forall i :: 0 <= i < |s.blocks| ==> !s.blocks[i].Sleeping? && !s.blocks[i].DeferredReturn?
    ensures Scan(World(s, Deciding).env, 0, clock, j, NothingFound) == Picked(World(s, Deciding).env, t, None)
    decreases k - j
  {
    hide Arm;
    var e := World(s, Deciding).env;
    assert Candidate(e, j) == Nth(s, j);
    OffersAtAnyTime(s, Nth(s, j), clock(j));
    if j < k {
      assert Offers(s, Nth(s, j)) == Skip;
      SkipsTo(s, clock, k, t, j + 1);
    }
  }

  /** A decision for a ready thread, past candidates that have nothing to offer. */
  lemma {:induction false} Turns(s: Situation, clock: Clock, k: nat, t: ThreadId)
    requires FirstReady(s, k, t)
    requires forall i :: 0 <= i < |s.blocks| ==> !s.blocks[i].Sleeping? && !s.blocks[i].DeferredReturn?
    ensures Leads(World(s, Deciding), [Schedule(clock)], World(s.(current := t), Guest))
  {
    hide Scan, SwitchThread;
    SkipsTo(s, clock, k, t, 0);
    Switches(s, Deciding, t);
    OneStep(World(s, Deciding), Schedule(clock));
    var e := World(s.(current := t), Deciding).env;
    assert e.threads[e.current].blockedBy.NotBlocked?;
    assert e.threads == World(s.(current := t), Guest).env.threads;
  }

  function Yield(clock: Clock): seq<Event> { [TimeSliceOver] + [Schedule(clock)] }

  /** The time slice of the current thread ends, and `t` is next. */
  lemma {:induction false} Yields(s: Situation, clock: Clock, k: nat, t: ThreadId)
    requires FirstReady(s, k, t)
    requires forall i :: 0 <= i < |s.blocks| ==> !s.blocks[i].Sleeping? && !s.blocks[i].DeferredReturn?
    ensures Leads(World(s, Guest), Yield(clock), World(s.(current := t), Guest))
  {
    hide Leads, World;
    YieldsSlice(s);
    Turns(s, clock, k, t);
    Follows(World(s, Guest), [TimeSliceOver], World(s, Deciding), [Schedule(clock)], World(s.(current := t), Guest));
  }

  // ---------------------------------------------------------------- creating threads

  lemma HeapIsBelow(n: nat)
    requires 1 <= n < 16
    ensures forall b :: b in HeapOf(n) ==> b + HeapOf(n)[b] <= StackOf(n)
  {
    if n > 1 { HeapIsBelow(n - 1); }
  }

  function CreateNext(n: nat): Event
    requires n < 16
  {
    Create(0, 0, PAGE, StackOf(n))
  }

  /** Thread 0 creates a thread. */
  lemma {:induction false} CreatesNext(s: Situation)
    requires Small(s) && |s.blocks| < 16 && s.blocks[s.current].NotBlocked?
    ensures Leads(World(s, Guest), Calls(CreateNext(|s.blocks|)), World(s.(blocks := s.blocks + [NotBlocked]), Guest))
  {
    var n := |s.blocks|;
    var m, t := World(s, Host), s.(blocks := s.blocks + [NotBlocked]);
    HeapIsBelow(n);
    assert FreshChunk(m.env.heap, StackOf(n), PAGE);
    NewThreadIs(m.env, 0, 0, PAGE, StackOf(n));
    var next := Step(m, CreateNext(n));
    assert next.env.threads == World(t, Host).env.threads;
    assert next.born == World(t, Host).born;
    assert next.env.heap == HeapOf(n + 1);
    assert next == World(t, Host);
    CallsHost(s, CreateNext(n), t);
  }
}
