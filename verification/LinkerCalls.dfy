/**
 What calling a stub means, at any time: first call or later one, linked or relinked
 (src/dyld.rs:642-812, src/environment.rs:1020-1058).
 */
module LinkerCalls {
  import opened Prelude
  import opened Threads
  import opened Arm
  import opened Linker
  import opened LinkerInvariant
  import opened LinkerSetup

  /** The CPU, the linker's state, and the host functions called so far. */
  datatype World = World(cpu: Cpu, l: Linking, calls: seq<string>)

  /** What a host function does to the CPU. */
  type HostCode = (string, Cpu) -> Cpu

  /** One instruction, including what the emulator does at an SVC; `None` where that is no business of the linker's. */
  function Next(p: Program, host: HostCode, w: World): Option<World> {
    var pc := w.cpu.regs[PC];
    if IsThumbMode(w.cpu) then None
    else
      match Decode(Load(w.l.mem, pc))
      case Svc(svc) =>
        if svc == SVC_THREAD_EXIT || svc == SVC_RETURN_TO_HOST then None
        else
          (match Linker.GetSvcHandler(p, w.l, pc, svc)
           case Failed(_) => None
           case Done(l1, None) => Some(World(w.cpu, l1, w.calls))
           case Done(l1, Some(f)) => Some(World(AfterHostFunction(host(f, Advance(w.cpu)), svc), l1, w.calls + [f])))
      case _ =>
        match Execute(w.cpu, w.l.mem)
        case None => None
        case Some(c) => Some(World(c, w.l, w.calls))
  }

  /** With the flag, the emulator performs the return that a 4-byte stub has no room for. */
  function AfterHostFunction(c: Cpu, svc: nat): Cpu {
    if HasRetFlag(svc) then Branch(c, c.regs[LR]) else c
  }

  function Iterate(p: Program, host: HostCode, w: World, n: nat): Option<World>
    decreases n
  {
    if n == 0 then Some(w)
    else match Next(p, host, w) case None => None case Some(w1) => Iterate(p, host, w1, n - 1)
  }

  ghost predicate Leads(p: Program, host: HostCode, w: World, v: World) {
    exists n: nat :: Iterate(p, host, w, n) == Some(v)
  }

  lemma {:induction false} IterateAdds(p: Program, host: HostCode, w: World, n: nat, m: nat)
    requires Iterate(p, host, w, n).Some?
    ensures Iterate(p, host, w, n + m) == Iterate(p, host, Iterate(p, host, w, n).value, m)
    decreases n
  {
    hide Next;
    if n > 0 { IterateAdds(p, host, Next(p, host, w).value, n - 1, m); }
  }

  lemma LeadsOn(p: Program, host: HostCode, u: World, v: World, w: World)
    requires Leads(p, host, u, v) && Leads(p, host, v, w)
    ensures Leads(p, host, u, w)
  {
    var n: nat :| Iterate(p, host, u, n) == Some(v);
    var m: nat :| Iterate(p, host, v, m) == Some(w);
    IterateAdds(p, host, u, n, m);
  }

  lemma LeadsNext(p: Program, host: HostCode, w: World)
    requires Next(p, host, w).Some?
    ensures Leads(p, host, w, Next(p, host, w).value)
  {
    assert Iterate(p, host, Next(p, host, w).value, 0) == Next(p, host, w);
    assert Iterate(p, host, w, 1) == Next(p, host, w);
  }

  // ---------------------------------------------------------------- what a call means

  /** Host functions return: they leave PC, LR and the instruction set as they were. */
  ghost predicate Returns(host: HostCode) {
    forall f: string, c: Cpu ::
      host(f, c).regs[PC] == c.regs[PC] && host(f, c).regs[LR] == c.regs[LR] &&
        IsThumbMode(host(f, c)) == IsThumbMode(c)
  }

  /** The same CPU state but for PC and the scratch register r12. */
  predicate SameButScratch(a: Cpu, b: Cpu) {
    b == Cpu(a.regs[R12 := b.regs[R12]][PC := b.regs[PC]], a.cpsr)
  }

  ghost predicate CalledHost(host: HostCode, w: World, v: World, symbol: string) {
    v.calls == w.calls + [symbol] &&
    exists c: Cpu :: SameButScratch(w.cpu, c) && v.cpu == Branch(host(symbol, c), w.cpu.regs[LR])
  }

  predicate JumpedTo(w: World, v: World, address: u32) {
    v.calls == w.calls &&
    v.cpu == Branch(w.cpu.(regs := w.cpu.regs[R12 := v.cpu.regs[R12]]), address)
  }

  /** The stub for `symbol` calls the host's function and returns, or goes to where the first binary exports it. */
  ghost predicate Means(p: Program, host: HostCode, w: World, v: World, symbol: string) {
    if symbol in p.hosts then CalledHost(host, w, v, symbol)
    else exists address: u32 :: ExportedAt(p.bins, symbol, address) && JumpedTo(w, v, address)
  }

  predicate At(w: World, a: u32) {
    !IsThumbMode(w.cpu) && w.cpu.regs[PC] == a
  }

  // ---------------------------------------------------------------- the states of a stub, executed

  lemma SvcDecodes(svc: nat)
    requires svc < 0x1000000
    ensures Decode(SVC_BASE + svc) == Svc(svc)
  {
    EncodedSvcDecodes(svc);
  }

  /** An SVC for function number `idx` calls that function. */
  lemma RunSvc(p: Program, host: HostCode, w: World, idx: nat, flag: bool, symbol: string)
    requires Names(w.l, idx, symbol) && !IsThumbMode(w.cpu)
    requires Load(w.l.mem, w.cpu.regs[PC]) == SVC_BASE + SvcFor(idx, flag)
    ensures Next(p, host, w) ==
            Some(World(AfterHostFunction(host(symbol, Advance(w.cpu)), SvcFor(idx, flag)), w.l, w.calls + [symbol]))
    ensures HasRetFlag(SvcFor(idx, flag)) == flag
  {
    SvcNamesItsFunctionIff(idx);
    SvcDecodes(SvcFor(idx, flag));
  }

  lemma RunRet(p: Program, host: HostCode, w: World)
    requires !IsThumbMode(w.cpu) && Load(w.l.mem, w.cpu.regs[PC]) == RET
    ensures Next(p, host, w) == Some(w.(cpu := Branch(w.cpu, w.cpu.regs[LR])))
  {
  }

  /**
   An SVC followed by a return, or one with the flag, at `w`'s PC: the host function is called and
   control returns.
   */
  lemma RunHostCall(p: Program, host: HostCode, w: World, idx: nat, flag: bool, symbol: string)
    requires Returns(host) && Names(w.l, idx, symbol) && !IsThumbMode(w.cpu)
    requires Load(w.l.mem, w.cpu.regs[PC]) == SVC_BASE + SvcFor(idx, flag)
    requires !flag ==> Load(w.l.mem, Add32(w.cpu.regs[PC], 4)) == RET
    ensures var v := World(Branch(host(symbol, Advance(w.cpu)), w.cpu.regs[LR]), w.l, w.calls + [symbol]);
            Leads(p, host, w, v) && CalledHost(host, w, v, symbol)
  {
    hide Decode, Branch, Iterate;
    RunSvc(p, host, w, idx, flag, symbol);
    var w1 := Next(p, host, w).value;
    LeadsNext(p, host, w);
    assert SameButScratch(w.cpu, Advance(w.cpu));
    if !flag {
      RunRet(p, host, w1);
      LeadsNext(p, host, w1);
      LeadsOn(p, host, w, w1, Next(p, host, w1).value);
    }
  }

  lemma RunLinked(p: Program, loaded: Words, host: HostCode, w: World, s: Stub, idx: nat)
    requires Returns(host) && At(w, s.addr) && s.addr + EntrySize(s.form) <= TWO32 && LinkedTo(w.l, s, idx)
    ensures exists v: World :: Leads(p, host, w, v) && v.l == w.l && CalledHost(host, w, v, s.symbol)
  {
    hide Decode, Branch, Iterate, Leads;
    var ws := LinkedInstructions(s.form, idx);
    assert Load(w.l.mem, Add32(s.addr, 4 * 0)) == ws[0];
    if !s.form.Direct? { assert Load(w.l.mem, Add32(s.addr, 4 * 1)) == ws[1]; }
    RunHostCall(p, host, w, idx, s.form.Direct?, s.symbol);
  }

  lemma RunRoutine(p: Program, host: HostCode, w: World, base: u32, idx: nat, symbol: string)
    requires Returns(host) && At(w, base) && base + 8 <= TWO32 && RoutineCalls(w.l, base, idx, symbol)
    ensures exists v: World :: Leads(p, host, w, v) && v.l == w.l && CalledHost(host, w, v, symbol)
  {
    hide Decode, Branch, Iterate, Leads;
    var ws := [SVC_BASE + SvcFor(idx, false), RET];
    assert Load(w.l.mem, Add32(base, 4 * 0)) == ws[0] && Load(w.l.mem, Add32(base, 4 * 1)) == ws[1];
    RunHostCall(p, host, w, idx, false, symbol);
  }

  /** A restored stub jumps to the address in its slot. */
  lemma RunRestored(p: Program, loaded: Words, host: HostCode, w: World, s: Stub)
    requires At(w, s.addr) && s.addr + EntrySize(s.form) <= TWO32
    requires HoldsAt(w.l.mem, s.addr, RestoredInstructions(s)) && DataKept(loaded, w.l.mem, s)
    requires s.form.Direct? ==> And(s.pic / 0x1000, STRAY_BITS) == 0
    ensures exists v: World :: Leads(p, host, w, v) && v.l == w.l && JumpedTo(w, v, Load(w.l.mem, BaseSlot(loaded, s)))
  {
    match s.form
    case Direct => RunDirect(p, loaded, host, w, s);
    case Absolute => RunAbsolute(p, loaded, host, w, s);
    case Pic => RunPic(p, loaded, host, w, s);
  }

  lemma RunDirect(p: Program, loaded: Words, host: HostCode, w: World, s: Stub)
    requires At(w, s.addr) && s.form.Direct? && HoldsAt(w.l.mem, s.addr, RestoredInstructions(s))
    requires s.addr + 4 <= TWO32 && And(s.pic / 0x1000, STRAY_BITS) == 0
    ensures exists v: World :: Leads(p, host, w, v) && v.l == w.l && JumpedTo(w, v, Load(w.l.mem, BaseSlot(loaded, s)))
  {
    hide Or, Branch, Decode, Iterate, Leads;
    OffsetIntoInstruction(s.pic);
    assert Load(w.l.mem, Add32(s.addr, 4 * 0)) == RestoredInstructions(s)[0];
    LeadsNext(p, host, w);
    var v := Next(p, host, w).value;
    BranchKeepsR12(w.cpu, Load(w.l.mem, BaseSlot(loaded, s)));
  }

  lemma BranchKeepsR12(c: Cpu, f: u32)
    ensures Branch(c, f).regs[R12] == c.regs[R12] && c.regs[R12 := c.regs[R12]] == c.regs
  {
  }

  lemma RunAbsolute(p: Program, loaded: Words, host: HostCode, w: World, s: Stub)
    requires At(w, s.addr) && s.form.Absolute? && HoldsAt(w.l.mem, s.addr, RestoredInstructions(s))
    requires DataKept(loaded, w.l.mem, s) && s.addr + 12 <= TWO32
    ensures exists v: World :: Leads(p, host, w, v) && v.l == w.l && JumpedTo(w, v, Load(w.l.mem, BaseSlot(loaded, s)))
  {
    hide Leads, Iterate, GetSvcHandler, WithThumbFlag;
    var ws := RestoredInstructions(s);
    assert Load(w.l.mem, Add32(s.addr, 4 * 0)) == ws[0] && Load(w.l.mem, Add32(s.addr, 4 * 1)) == ws[1];
    var slot := BaseSlot(loaded, s);
    var w1 := w.(cpu := Advance(SetReg(w.cpu, R12, slot)));
    assert Next(p, host, w) == Some(w1);
    LeadsNext(p, host, w);
    var w2 := w1.(cpu := Branch(w1.cpu, Load(w.l.mem, slot)));
    assert Next(p, host, w1) == Some(w2);
    LeadsNext(p, host, w1);
    LeadsOn(p, host, w, w1, w2);
    assert JumpedTo(w, w2, Load(w.l.mem, slot));
  }

  lemma RunPic(p: Program, loaded: Words, host: HostCode, w: World, s: Stub)
    requires At(w, s.addr) && s.form.Pic? && HoldsAt(w.l.mem, s.addr, RestoredInstructions(s))
    requires DataKept(loaded, w.l.mem, s) && s.addr + 16 <= TWO32
    ensures exists v: World :: Leads(p, host, w, v) && v.l == w.l && JumpedTo(w, v, Load(w.l.mem, BaseSlot(loaded, s)))
  {
    hide Leads, Iterate, GetSvcHandler, WithThumbFlag;
    var ws := RestoredInstructions(s);
    assert Load(w.l.mem, Add32(s.addr, 4 * 0)) == ws[0] && Load(w.l.mem, Add32(s.addr, 4 * 1)) == ws[1];
    assert Load(w.l.mem, Add32(s.addr, 4 * 2)) == ws[2];
    var slot := BaseSlot(loaded, s);
    var w1 := w.(cpu := Advance(SetReg(w.cpu, R12, Load(loaded, Add32(s.addr, 12)))));
    assert Next(p, host, w) == Some(w1);
    LeadsNext(p, host, w);
    var w2 := w1.(cpu := Advance(SetReg(w1.cpu, R12, slot)));
    assert Next(p, host, w1) == Some(w2);
    LeadsNext(p, host, w1);
    LeadsOn(p, host, w, w1, w2);
    var w3 := w2.(cpu := Branch(w2.cpu, Load(w.l.mem, slot)));
    assert Next(p, host, w2) == Some(w3);
    LeadsNext(p, host, w2);
    LeadsOn(p, host, w, w2, w3);
    assert JumpedTo(w, w3, Load(w.l.mem, slot));
  }

  // ---------------------------------------------------------------- every call, whatever the stub's state

  lemma JumpStaysInArm(w: World, v: World, address: u32)
    requires !IsThumbMode(w.cpu) && JumpedTo(w, v, address) && Aligned(address)
    ensures At(v, address) && SameButScratch(w.cpu, v.cpu) && v.cpu.regs[LR] == w.cpu.regs[LR]
  {
  }

  lemma ScratchTransitive(a: Cpu, b: Cpu, c: Cpu)
    requires SameButScratch(a, b) && SameButScratch(b, c)
    ensures SameButScratch(a, c)
  {
    assert c.regs == a.regs[R12 := c.regs[R12]][PC := c.regs[PC]];
  }

  lemma CalledAfterJump(host: HostCode, w: World, v: World, u: World, symbol: string)
    requires SameButScratch(w.cpu, v.cpu) && v.cpu.regs[LR] == w.cpu.regs[LR] && v.calls == w.calls
    requires CalledHost(host, v, u, symbol)
    ensures CalledHost(host, w, u, symbol)
  {
    hide Branch;
    var c: Cpu :| SameButScratch(v.cpu, c) && u.cpu == Branch(host(symbol, c), v.cpu.regs[LR]);
    ScratchTransitive(w.cpu, v.cpu, c);
  }

  /** A restored stub does what its symbol means, through the guest function made for the symbol if there is one. */
  lemma RestoredMeans(p: Program, loaded: Words, host: HostCode, w: World, s: Stub)
    requires Inv(p, loaded, w.l) && IsStub(p, s) && At(w, s.addr) && Restored(p, loaded, w.l, s) && Returns(host)
    ensures exists v: World :: Leads(p, host, w, v) && v.l == w.l && Means(p, host, w, v, s.symbol)
  {
    hide IsStub, Leads, HoldsAt, RestoredInstructions, BaseSlot, SlotApart, Branch, Names, ExportedAt, Returns;
    StubsApart(p, loaded, s, s);
    assert StubOk(p, loaded, w.l, s);
    assert Reaches(loaded, s);
    RunRestored(p, loaded, host, w, s);
    var address := Load(w.l.mem, BaseSlot(loaded, s));
    var v: World :| Leads(p, host, w, v) && v.l == w.l && JumpedTo(w, v, address);
    if s.symbol in w.l.nonLazy {
      Remembered(p, loaded, w.l, s.symbol);
      assert RoutineOk(p, loaded, w.l, address);
      var idx: nat :| RoutineCalls(w.l, address, idx, s.symbol);
      JumpStaysInArm(w, v, address);
      RunRoutine(p, host, v, address, idx, s.symbol);
      var u: World :| Leads(p, host, v, u) && u.l == v.l && CalledHost(host, v, u, s.symbol);
      LeadsOn(p, host, w, v, u);
      CalledAfterJump(host, w, v, u, s.symbol);
    }
  }

  /** The first instruction of a stub that has not been linked: the lazy linker runs. */
  lemma RunLazyLink(p: Program, host: HostCode, w: World, s: Stub)
    requires At(w, s.addr) && Unlinked(w.l, s) && DoLazyLink(p, w.l, s.addr).Done?
    ensures var svc := if s.form.Direct? then RET_FLAG else SVC_LAZY_LINK;
            var r := DoLazyLink(p, w.l, s.addr);
            && HasRetFlag(svc) == s.form.Direct?
            && Next(p, host, w) == match r.value
                                   case None => Some(World(w.cpu, r.state, w.calls))
                                   case Some(f) => Some(World(AfterHostFunction(host(f, Advance(w.cpu)), svc), r.state,
                                     w.calls + [f]))
  {
    hide DoLazyLink;
    var svc := if s.form.Direct? then RET_FLAG else SVC_LAZY_LINK;
    SvcDecodes(svc);
    assert Load(w.l.mem, Add32(s.addr, 4 * 0)) == LazyInstructions(s.form)[0];
  }

  lemma FirstHostCall(p: Program, loaded: Words, host: HostCode, w: World, s: Stub)
    requires Inv(p, loaded, w.l) && IsStub(p, s) && At(w, s.addr) && Unlinked(w.l, s) && Returns(host)
    requires DoLazyLink(p, w.l, s.addr).Done? && DoLazyLink(p, w.l, s.addr).value == Some(s.symbol)
    requires LinkedTo(DoLazyLink(p, w.l, s.addr).state, s, |w.l.linked|)
    ensures exists v: World ::
              Leads(p, host, w, v) && v.l == DoLazyLink(p, w.l, s.addr).state && CalledHost(host, w, v, s.symbol)
  {
    hide Leads, Branch, DoLazyLink, Inv, IsStub, Unlinked;
    RunLazyLink(p, host, w, s);
    LeadsNext(p, host, w);
    var v := Next(p, host, w).value;
    assert SameButScratch(w.cpu, Advance(w.cpu));
    if !s.form.Direct? {
      assert Load(v.l.mem, Add32(s.addr, 4 * 1)) == LinkedInstructions(s.form, |w.l.linked|)[1];
      RunRet(p, host, v);
      LeadsNext(p, host, v);
      LeadsOn(p, host, w, v, Next(p, host, v).value);
    }
  }

  /**
   Lazy linking preserves meaning. Whatever state its stub is in, calling a resolvable symbol calls
   the host's function for it and returns to LR, or jumps to the exported address, changing no other
   register than the scratch register; and the state stays sound.
   */
  lemma StubCall(p: Program, loaded: Words, host: HostCode, w: World, s: Stub)
    requires Inv(p, loaded, w.l) && IsStub(p, s) && At(w, s.addr) && Returns(host) && Resolvable(p, s.symbol)
    requires |w.l.linked| + SVC_LINKED_FUNCTIONS_BASE < RET_FLAG
    ensures exists v: World ::
              Leads(p, host, w, v) && Inv(p, loaded, v.l) && Grows(w.l, v.l) && Means(p, host, w, v, s.symbol)
  {
    hide Leads, Inv, IsStub, DoLazyLink, Unlinked, LinkedTo, Restored, Means, Returns;
    StubStates(p, loaded, w.l, s);
    if Unlinked(w.l, s) {
      FirstCall(p, loaded, host, w, s);
    } else if HostLinked(p, w.l, s) {
      var idx: nat :| LinkedTo(w.l, s, idx);
      RunLinked(p, loaded, host, w, s, idx);
      var v: World :| Leads(p, host, w, v) && v.l == w.l && CalledHost(host, w, v, s.symbol);
      assert Means(p, host, w, v, s.symbol) by { HostMeans(p, host, w, v, s.symbol); }
    } else {
      RestoredMeans(p, loaded, host, w, s);
    }
  }

  lemma HostMeans(p: Program, host: HostCode, w: World, v: World, symbol: string)
    requires symbol in p.hosts && CalledHost(host, w, v, symbol)
    ensures Means(p, host, w, v, symbol)
  {
  }

  lemma StubStates(p: Program, loaded: Words, l: Linking, s: Stub)
    requires Inv(p, loaded, l) && IsStub(p, s)
    ensures s.addr + EntrySize(s.form) <= TWO32
    ensures Unlinked(l, s) || HostLinked(p, l, s) || Restored(p, loaded, l, s)
  {
    hide IsStub, Unlinked, HostLinked, Restored;
    StubsApart(p, loaded, s, s);
    assert StubOk(p, loaded, l, s);
  }

  lemma FirstCall(p: Program, loaded: Words, host: HostCode, w: World, s: Stub)
    requires Inv(p, loaded, w.l) && IsStub(p, s) && At(w, s.addr) && Unlinked(w.l, s) && Returns(host) &&
             Resolvable(p, s.symbol)
    requires |w.l.linked| + SVC_LINKED_FUNCTIONS_BASE < RET_FLAG
    ensures exists v: World ::
              Leads(p, host, w, v) && Inv(p, loaded, v.l) && Grows(w.l, v.l) && Means(p, host, w, v, s.symbol)
  {
    hide Leads, Inv, IsStub, DoLazyLink, Unlinked, LinkedTo, Restored, Returns, CalledHost, JumpedTo, ExportedAt,
      GetSvcHandler;
    LazyLinkKeeps(p, loaded, w.l, s);
    var r := DoLazyLink(p, w.l, s.addr);
    if r.value == Some(s.symbol) {
      FirstHostCall(p, loaded, host, w, s);
    } else {
      RunLazyLink(p, host, w, s);
      LeadsNext(p, host, w);
      var v := World(w.cpu, r.state, w.calls);
      RestoredMeans(p, loaded, host, v, s);
      var u: World :| Leads(p, host, v, u) && u.l == v.l && Means(p, host, v, u, s.symbol);
      LeadsOn(p, host, w, v, u);
      MeansSame(p, host, w, v, u, s.symbol);
    }
  }

  lemma MeansSame(p: Program, host: HostCode, w: World, v: World, u: World, symbol: string)
    requires w.cpu == v.cpu && w.calls == v.calls && Means(p, host, v, u, symbol)
    ensures Means(p, host, w, u, symbol)
  {
  }

  /** A guest function made for a host function calls that function, at any time. */
  lemma RoutineCall(p: Program, loaded: Words, host: HostCode, w: World, base: u32)
    requires Inv(p, loaded, w.l) && base in w.l.routines && At(w, base) && Returns(host)
    ensures exists v: World :: Leads(p, host, w, v) && v.l == w.l && CalledHost(host, w, v, w.l.routines[base])
  {
    hide Leads, RoutineCalls, CalledHost, Layout, IsStub, Returns;
    assert RoutineOk(p, loaded, w.l, base);
    var idx: nat :| RoutineCalls(w.l, base, idx, w.l.routines[base]);
    RunRoutine(p, host, w, base, idx, w.l.routines[base]);
  }

  // ---------------------------------------------------------------- whole runs

  /** Memory changes that leave stubs, their pointers and the linker's guest functions alone. */
  ghost predicate LeavesAlone(p: Program, loaded: Words, l: Linking, mem: Words) {
    && (forall s: Stub :: IsStub(p, s) ==> SameStub(loaded, l.mem, mem, s))
    && (forall b :: b in l.routines ==> forall x: u32 :: b <= x < b + 8 ==> Load(l.mem, x) == Load(mem, x))
  }

  datatype Event =
    | Instruction                            // one instruction of `Next`
    | Elsewhere(cpu: Cpu, mem: Words)        // any other guest or host code
    | ProcAddress(symbol: string, base: u32)
    | GuestFunction(symbol: string, base: u32)

  /** The emulator goes on from `w` to `v`, with room for another function. */
  ghost predicate Happens(p: Program, loaded: Words, host: HostCode, w: World, e: Event, v: World) {
    && |w.l.linked| + SVC_LINKED_FUNCTIONS_BASE < RET_FLAG
    && match e
       case Instruction => Next(p, host, w) == Some(v)
       case Elsewhere(cpu, mem) => LeavesAlone(p, loaded, w.l, mem) && v == World(cpu, w.l.(mem := mem), w.calls)
       case ProcAddress(symbol, base) =>
         && FreshRoutine(p, loaded, w.l, base)
         && CreateProcAddress(p, w.l, symbol, base).Done? && v == w.(l := CreateProcAddress(p, w.l, symbol, base).state)
       case GuestFunction(symbol, base) =>
         && FreshRoutine(p, loaded, w.l, base)
         && CreateGuestFunction(w.l, symbol, base).Done? && v == w.(l := CreateGuestFunction(w.l, symbol, base).state)
  }

  /** An SVC number that the linker treats as unlinked is found only in unlinked stubs. */
  lemma LazySvcIsUnlinked(p: Program, loaded: Words, l: Linking, s: Stub, svc: nat)
    requires Inv(p, loaded, l) && IsStub(p, s) && (svc == SVC_LAZY_LINK || svc == RET_FLAG)
    requires Decode(Load(l.mem, s.addr)) == Svc(svc)
    ensures Unlinked(l, s)
  {
    hide IsStub, Layout, ExportedAt, Or, And;
    StubsApart(p, loaded, s, s);
    assert StubOk(p, loaded, l, s);
    if HostLinked(p, l, s) {
      var idx: nat :| LinkedTo(l, s, idx);
      assert Load(l.mem, Add32(s.addr, 4 * 0)) == LinkedInstructions(s.form, idx)[0];
      SvcDecodes(SvcFor(idx, s.form.Direct?));
    } else if Restored(p, loaded, l, s) {
      assert Load(l.mem, Add32(s.addr, 4 * 0)) == RestoredInstructions(s)[0];
      StubReaches(p, loaded, s);
      OffsetIntoInstruction(s.pic);
    }
  }

  lemma StubReaches(p: Program, loaded: Words, s: Stub)
    requires Layout(p, loaded) && IsStub(p, s)
    ensures Reaches(loaded, s)
  {
    hide IsStub;
  }

  lemma InstructionKeeps(p: Program, loaded: Words, host: HostCode, w: World)
    requires Inv(p, loaded, w.l) && Next(p, host, w).Some?
    requires |w.l.linked| + SVC_LINKED_FUNCTIONS_BASE < RET_FLAG
    ensures Inv(p, loaded, Next(p, host, w).value.l) && Grows(w.l, Next(p, host, w).value.l)
  {
    hide Inv, Unlinked, LinkedTo, Restored, Execute, OnlyStubChanged, LinkByRestoring;
    var pc := w.cpu.regs[PC];
    if Decode(Load(w.l.mem, pc)).Svc? {
      var svc := Decode(Load(w.l.mem, pc)).imm;
      if (svc == SVC_LAZY_LINK || svc == RET_FLAG) && Locate(p.bins, pc).At? {
        var s := Locate(p.bins, pc).stub;
        FoundIsEntry(p, pc);
        LazySvcIsUnlinked(p, loaded, w.l, s, svc);
        if Resolvable(p, s.symbol) {
          LazyLinkKeeps(p, loaded, w.l, s);
        } else {
          NotRemembered(p, loaded, w.l, s.symbol);
          NotExported(p, s.symbol);
        }
      }
    }
  }

  lemma NotRemembered(p: Program, loaded: Words, l: Linking, symbol: string)
    requires Inv(p, loaded, l) && symbol !in p.hosts
    ensures symbol !in l.nonLazy
  {
    hide Layout, IsStub, RoutineOk;
  }

  lemma ElsewhereKeeps(p: Program, loaded: Words, l: Linking, mem: Words)
    requires Inv(p, loaded, l) && LeavesAlone(p, loaded, l, mem)
    ensures Inv(p, loaded, l.(mem := mem))
  {
    hide IsStub, StubOk, SameStub, Layout;
    var l1 := l.(mem := mem);
    forall s: Stub | IsStub(p, s) ensures StubOk(p, loaded, l1, s) {
      StubsApart(p, loaded, s, s);
      UntouchedStub(p, loaded, l, l1, s);
    }
    forall b | b in l1.routines ensures RoutineOk(p, loaded, l1, b) {
      assert RoutineOk(p, loaded, l, b);
      UntouchedRoutine(p, loaded, l, l1, b);
    }
  }

  lemma EventKeeps(p: Program, loaded: Words, host: HostCode, w: World, e: Event, v: World)
    requires Inv(p, loaded, w.l) && Happens(p, loaded, host, w, e, v)
    ensures Inv(p, loaded, v.l) && Grows(w.l, v.l)
  {
    hide Inv, Next, FreshRoutine, CreateProcAddress, CreateGuestFunction, LeavesAlone;
    match e
    case Instruction => InstructionKeeps(p, loaded, host, w);
    case Elsewhere(_, mem) => ElsewhereKeeps(p, loaded, w.l, mem);
    case ProcAddress(symbol, base) => ProcAddresses(p, loaded, w.l, symbol, base);
    case GuestFunction(symbol, base) => CreatingKeeps(p, loaded, w.l, symbol, base);
  }

  /** A run: worlds, and the events leading from each to the next. */
  ghost predicate IsRun(p: Program, loaded: Words, host: HostCode, ws: seq<World>, es: seq<Event>) {
    |ws| == |es| + 1 && forall i :: 0 <= i < |es| ==> Happens(p, loaded, host, ws[i], es[i], ws[i + 1])
  }

  lemma {:induction false} RunKeepsInvariant(p: Program, loaded: Words, host: HostCode, ws: seq<World>, es: seq<Event>)
    requires IsRun(p, loaded, host, ws, es) && Inv(p, loaded, ws[0].l)
    ensures Inv(p, loaded, ws[|es|].l) && Grows(ws[0].l, ws[|es|].l)
    decreases |es|
  {
    hide Inv, Happens;
    if es != [] {
      var n := |es| - 1;
      RunKeepsInvariant(p, loaded, host, ws[..|es|], es[..n]);
      EventKeeps(p, loaded, host, ws[n], es[n], ws[n + 1]);
    }
  }

  /** Where the k-th entry of a stub section lies, for entries of 4, 12 or 16 bytes. */
  function EntryAddress(s: Section, k: nat): int {
    s.addr + k * (match s.form case Direct => 4 case Absolute => 12 case Pic => 16)
  }

  /**
   In every run of the emulator from freshly set up stubs, whatever has been called, linked or created
   before, calling the k-th stub of a binary means what the k-th symbol of its section does.
   */
  lemma EveryCallMeansTheSame(p: Program, loaded: Words, host: HostCode, ws: seq<World>, es: seq<Event>,
          i: nat, k: nat, symbol: string)
    requires Layout(p, loaded) && SetupBins(loaded, p.bins, |p.bins|).Some?
    requires IsRun(p, loaded, host, ws, es) &&
             ws[0].l == Linking(SetupBins(loaded, p.bins, |p.bins|).value, [], map[], map[])
    requires i < |p.bins| && p.bins[i].stubs.Some?
    requires var section := p.bins[i].stubs.value;
             && k < |section.symbols| && section.symbols[k] == Some(symbol)
             && At(ws[|es|], EntryAddress(section, k))
    requires |ws[|es|].l.linked| + SVC_LINKED_FUNCTIONS_BASE < RET_FLAG
    requires Returns(host) && Resolvable(p, symbol)
    ensures exists v: World :: Leads(p, host, ws[|es|], v) && Means(p, host, ws[|es|], v, symbol)
  {
    hide Inv, Happens, Leads, Means, SetupBins, Layout, Returns, Resolvable;
    SetupEstablishesInvariant(p, loaded);
    RunKeepsInvariant(p, loaded, host, ws, es);
    var section := p.bins[i].stubs.value;
    var s := Stub(ws[|es|].cpu.regs[PC], section.form, symbol, PicOffset(p.bins[i]));
    assert IsEntry(p, i, k, s);
    StubCall(p, loaded, host, ws[|es|], s);
  }
}
