/**
 Calls between host and guest, with their stack frames and hidden return pointers
 (src/abi.rs:118-171, 222-330, 350-441).
 */
module AbiCalls {
  import opened Prelude
  import opened Threads
  import opened Arm
  import opened Abi
  import opened AbiPlaces

  const FRAME_POINTER: nat := 7

  /** How a result comes back: in r0 (and r1), or in memory at a pointer passed in r0. */
  datatype Ret = NoResult | InRegs(kind: Kind) | InMemory(words: nat)

  function ResultWords(ret: Ret): nat {
    match ret case NoResult => 0 case InRegs(k) => RegCount(k) case InMemory(n) => n
  }

  /** Large structs are larger than a word. */
  predicate RetOk(ret: Ret) { ret.InMemory? ==> ret.words > 1 }

  /**
   What a host function returns, and the registers and memory it leaves: it may call guest code and
   write anything.
   */
  datatype Effect = Effect(words: seq<u32>, cpu: Cpu, mem: Words)

  type HostFunction = (seq<Arg>, Cpu, Words) -> Effect

  ghost predicate Returns(f: HostFunction, args: seq<Arg>, ret: Ret) {
    forall cpu: Cpu, mem: Words :: |f(args, cpu, mem).words| == ResultWords(ret)
  }

  function StackRoom(argWords: nat): nat {
    if argWords > 4 then 4 * (argWords - 4) else 0
  }

  function ReturnRoom(ret: Ret): nat {
    if ret.InMemory? then 4 * ret.words else 0
  }

  predicate SameRegsFrom4(a: Regs, b: Regs) { forall r :: 4 <= r < 16 ==> a[r] == b[r] }

  /** The result words, where the caller looks for them. */
  function ResultAt(s: State, ret: Ret, pointer: u32): seq<u32> {
    match ret
    case InMemory(n) => MemoryWords(s.mem, pointer, n)
    case _ => s.regs[..ResultWords(ret)]
  }

  function MemoryWords(mem: Words, p: u32, n: nat): (ws: seq<u32>)
    ensures |ws| == n
    decreases n
  {
    if n == 0 then [] else MemoryWords(mem, p, n - 1) + [Load(mem, Add32(p, 4 * (n - 1)))]
  }

  function StoreWords(mem: Words, p: u32, ws: seq<u32>): Words
    decreases |ws|
  {
    if ws == [] then mem else StoreWords(mem, p, ws[..|ws| - 1])[Add32(p, 4 * (|ws| - 1)) := ws[|ws| - 1]]
  }

  lemma {:induction false} StoreWordsIs(mem: Words, p: u32, ws: seq<u32>)
    requires p + 4 * |ws| <= TWO32
    ensures forall j :: 0 <= j < |ws| ==> Load(StoreWords(mem, p, ws), p + 4 * j) == ws[j]
    ensures forall x: u32 :: !(p <= x < p + 4 * |ws|) ==> Load(StoreWords(mem, p, ws), x) == Load(mem, x)
    decreases |ws|
  {
    if ws != [] {
      var n := |ws| - 1;
      StoreWordsIs(mem, p, ws[..n]);
      forall j | 0 <= j < |ws| ensures Load(StoreWords(mem, p, ws), p + 4 * j) == ws[j] {
        if j < n { assert Load(StoreWords(mem, p, ws[..n]), p + 4 * j) == ws[..n][j]; }
      }
    }
  }

  lemma {:induction false} MemoryWordsAre(mem: Words, p: u32, ws: seq<u32>)
    requires p + 4 * |ws| <= TWO32 && forall j :: 0 <= j < |ws| ==> Load(mem, p + 4 * j) == ws[j]
    ensures MemoryWords(mem, p, |ws|) == ws
    decreases |ws|
  {
    if ws != [] {
      var n := |ws| - 1;
      assert Load(mem, p + 4 * n) == ws[n];
      MemoryWordsAre(mem, p, ws[..n]);
    }
  }

  /**
   Of the words spilled by a call with a hidden return pointer, exactly one, the last, lies in the
   return buffer, and only if the named arguments alone already fill four registers: the stack was
   extended without counting the pointer.
   */
  lemma LastSpilledWordSharesBuffer(sp: u32, argWords: nat, ret: Ret, k: nat)
    requires ret.InMemory? && RetOk(ret) && 4 <= k < argWords + 1
    requires sp >= StackRoom(argWords) && sp + ReturnRoom(ret) <= TWO32
    ensures var address := StackWord(sp - StackRoom(argWords), k);
            sp <= address < sp + ReturnRoom(ret) <==> k == argWords
    ensures k == argWords ==> StackWord(sp - StackRoom(argWords), k) == sp
  {
    StackWordIs(sp - StackRoom(argWords), k);
  }

  function FirstOffset(ret: Ret): nat { if ret.InMemory? then 1 else 0 }

  function SetR(s: State, r: nat, v: u32): State
    requires r < 16
  {
    s.(regs := s.regs[r := v])
  }

  /** The caller's state with room made for the result and the arguments, and the pointer to the former in r0. */
  function Prepared(s: State, ret: Ret, argWords: nat): State
    requires s.regs[SP] >= ReturnRoom(ret) + StackRoom(argWords)
  {
    var pointer := s.regs[SP] - ReturnRoom(ret);
    var s1 := if ret.InMemory? then SetR(s, 0, pointer) else s;
    SetR(s1, SP, pointer - StackRoom(argWords))
  }

  /** What a host function's call leaves behind: the function's effect, and its result where it belongs. */
  function AfterHost(pointer: u32, ret: Ret, effect: Effect): State
    requires |effect.words| == ResultWords(ret)
  {
    match ret
    case InMemory(_) => State(effect.cpu.regs, StoreWords(effect.mem, pointer, effect.words))
    case _ => State(effect.words + effect.cpu.regs[|effect.words|..], effect.mem)
  }

  predicate MemorySame(a: Words, b: Words, lo: int, hi: int) {
    forall x: u32 :: x < lo || hi <= x ==> Load(b, x) == Load(a, x)
  }

  /** With the arguments written, the callee reads exactly them, and finds the result's pointer in r0. */
  lemma ArgumentsArrive(s: State, ret: Ret, args: seq<Arg>)
    requires RetOk(ret) && forall j :: 0 <= j < |args| ==> InRange(args[j])
    requires s.regs[SP] >= ReturnRoom(ret) + StackRoom(TotalRegs(Kinds(args)))
    ensures var e := Prepared(s, ret, TotalRegs(Kinds(args)));
            var t := Abi.WriteArgs(e, FirstOffset(ret), args);
            && Abi.ReadArgs(t, t.regs[SP], FirstOffset(ret), Kinds(args)) == args
            && AllLie(t, t.regs[SP], FirstOffset(ret), args)
            && (ret.InMemory? ==> t.regs[0] == s.regs[SP] - ReturnRoom(ret))
            && (forall r :: 4 <= r < 16 ==> t.regs[r] == e.regs[r])
            && MemorySame(s.mem, t.mem, e.regs[SP], s.regs[SP])
  {
    hide Abi.ReadArgs, Abi.WriteArgs, InRange, AllLie, Kinds, TotalRegs, Load;
    var e := Prepared(s, ret, TotalRegs(Kinds(args)));
    WriteThenRead(e, FirstOffset(ret), args);
    WrittenArgumentsLie(e, FirstOffset(ret), args);
    var t := Abi.WriteArgs(e, FirstOffset(ret), args);
    assert ret.InMemory? ==> GetWord(t, e.regs[SP], 0) == GetWord(e, e.regs[SP], 0);
  }

  /** The result is where the caller looks for it, and nothing else differs from what the function left. */
  lemma ResultArrives(pointer: u32, ret: Ret, effect: Effect)
    requires RetOk(ret) && |effect.words| == ResultWords(ret) && pointer + ReturnRoom(ret) <= TWO32
    ensures var u := AfterHost(pointer, ret, effect);
            && ResultAt(u, ret, pointer) == effect.words
            && (forall j :: 0 <= j < |effect.words| ==>
                  if ret.InMemory? then Load(u.mem, pointer + 4 * j) == effect.words[j]
                  else u.regs[j] == effect.words[j])
            && SameRegsFrom4(u.regs, effect.cpu.regs)
            && MemorySame(effect.mem, u.mem, pointer, pointer + ReturnRoom(ret))
  {
    if ret.InMemory? {
      StoreWordsIs(effect.mem, pointer, effect.words);
      MemoryWordsAre(StoreWords(effect.mem, pointer, effect.words), pointer, effect.words);
    }
  }

  class Guest {
    var cpu: Cpu
    var mem: Words

    function View(): State
      reads this
    {
      State(cpu.regs, mem)
    }

    method SetReg(r: nat, v: u32)
      requires r < 16
      modifies `cpu
      ensures cpu == Threads.SetReg(old(cpu), r, v)
    {
      cpu := cpu.(regs := cpu.regs[r := v]);
    }

    // -------------------------------------------------------------- one argument

    method WriteNextArg(regOffset: nat, arg: Arg) returns (next: nat)
      modifies this
      ensures View() == PutWords(old(View()), regOffset, ToWords(arg)) && cpu.cpsr == old(cpu.cpsr)
      ensures next == regOffset + RegCount(arg.kind)
    {
      var fakeRegs := ToWords(arg);
      next := regOffset;
      for i := 0 to |fakeRegs|
        invariant next == regOffset + i && cpu.cpsr == old(cpu.cpsr)
        invariant View() == PutWords(old(View()), regOffset, fakeRegs[..i])
      {
        assert fakeRegs[..i + 1][..i] == fakeRegs[..i];
        if next < 4 {
          SetReg(next, fakeRegs[i]);
        } else {
          mem := mem[StackWord(cpu.regs[SP], next) := fakeRegs[i]];
        }
        next := next + 1;
      }
      assert fakeRegs[..|fakeRegs|] == fakeRegs;
    }

    method ReadNextArg(regOffset: nat, stackPtr: u32, kind: Kind) returns (arg: Arg, next: nat)
      ensures arg == FromWords(kind, GetWords(View(), stackPtr, regOffset, RegCount(kind)))
      ensures next == regOffset + RegCount(kind)
    {
      var fakeRegs: seq<u32> := [];
      next := regOffset;
      for i := 0 to RegCount(kind)
        invariant next == regOffset + i && fakeRegs == GetWords(View(), stackPtr, regOffset, i)
      {
        if next < 4 {
          fakeRegs := fakeRegs + [cpu.regs[next]];
        } else {
          fakeRegs := fakeRegs + [Load(mem, StackWord(stackPtr, next))];
        }
        next := next + 1;
      }
      arg := FromWords(kind, fakeRegs);
    }

    method ExtendStackForArgs(regCountSum: nat) returns (oldSp: u32)
      requires cpu.regs[SP] >= StackRoom(regCountSum)
      modifies `cpu
      ensures oldSp == old(cpu.regs[SP])
      ensures cpu == Threads.SetReg(old(cpu), SP, oldSp - StackRoom(regCountSum))
    {
      oldSp := cpu.regs[SP];
      if regCountSum > 4 {
        SetReg(SP, oldSp - 4 * (regCountSum - 4));
      } else {
        assert cpu.regs[SP := cpu.regs[SP]] == cpu.regs;
      }
    }

    method WriteArgs(regOffset: nat, args: seq<Arg>)
      modifies this
      ensures View() == Abi.WriteArgs(old(View()), regOffset, args) && cpu.cpsr == old(cpu.cpsr)
    {
      var next := regOffset;
      for i := 0 to |args|
        invariant cpu.cpsr == old(cpu.cpsr)
        invariant Abi.WriteArgs(View(), next, args[i..]) == Abi.WriteArgs(old(View()), regOffset, args)
      {
        assert args[i..][0] == args[i] && args[i..][1..] == args[i + 1..];
        next := WriteNextArg(next, args[i]);
      }
    }

    method ReadArgs(regOffset: nat, stackPtr: u32, kinds: seq<Kind>) returns (args: seq<Arg>, next: nat)
      ensures args == Abi.ReadArgs(View(), stackPtr, regOffset, kinds) && next == regOffset + TotalRegs(kinds)
    {
      args, next := [], regOffset;
      for i := 0 to |kinds|
        invariant next + TotalRegs(kinds[i..]) == regOffset + TotalRegs(kinds)
        invariant args + Abi.ReadArgs(View(), stackPtr, next, kinds[i..]) ==
                  Abi.ReadArgs(View(), stackPtr, regOffset, kinds)
      {
        assert kinds[i..][0] == kinds[i] && kinds[i..][1..] == kinds[i + 1..];
        var arg;
        arg, next := ReadNextArg(next, stackPtr, kinds[i]);
        args := args + [arg];
      }
    }

    // -------------------------------------------------------------- host functions

    /** `call_from_guest` of a host function: take the arguments apart, call it, and put the result where it belongs. */
    method CallFromGuest(f: HostFunction, ret: Ret, kinds: seq<Kind>)
      requires RetOk(ret) && Returns(f, Abi.ReadArgs(View(), cpu.regs[SP], FirstOffset(ret), kinds), ret)
      modifies this
      ensures var effect := f(old(Abi.ReadArgs(View(), cpu.regs[SP], FirstOffset(ret), kinds)), old(cpu), old(mem));
              View() == AfterHost(old(cpu.regs[0]), ret, effect) && cpu.cpsr == effect.cpu.cpsr
    {
      var regOffset := 0;
      var retvalPtr: u32 := cpu.regs[0];
      if ret.InMemory? {
        var pointer;
        pointer, regOffset := ReadNextArg(0, cpu.regs[SP], KU32);
        assert GetWords(View(), cpu.regs[SP], 0, 1) == [cpu.regs[0]];
        retvalPtr := pointer.value;
      }
      var args, _ := ReadArgs(regOffset, cpu.regs[SP], kinds);
      var effect := f(args, cpu, mem);
      cpu, mem := effect.cpu, effect.mem;
      if ret.InMemory? {
        mem := StoreWords(mem, retvalPtr, effect.words);
      } else {
        cpu := cpu.(regs := effect.words + cpu.regs[|effect.words|..]);
      }
    }

    /** The first half of either `call_from_host`: room for the result and its pointer, and then the arguments. */
    method PassArguments(ret: Ret, args: seq<Arg>) returns (retvalPtr: u32, oldSp: u32)
      requires RetOk(ret) && forall j :: 0 <= j < |args| ==> InRange(args[j])
      requires cpu.regs[SP] >= ReturnRoom(ret) + StackRoom(TotalRegs(Kinds(args)))
      modifies this
      ensures retvalPtr == oldSp == old(cpu.regs[SP]) - ReturnRoom(ret)
      ensures Abi.ReadArgs(View(), cpu.regs[SP], FirstOffset(ret), Kinds(args)) == args
      ensures AllLie(View(), cpu.regs[SP], FirstOffset(ret), args)
      ensures cpu.regs[SP] == oldSp - StackRoom(TotalRegs(Kinds(args)))
      ensures ret.InMemory? ==> cpu.regs[0] == retvalPtr
      ensures (forall r :: 4 <= r < 16 && r != SP ==> cpu.regs[r] == old(cpu.regs[r])) && cpu.cpsr == old(cpu.cpsr)
      ensures MemorySame(old(mem), mem, cpu.regs[SP], old(cpu.regs[SP]))
    {
      hide Abi.WriteArgs, Abi.ReadArgs, InRange, AllLie;
      ghost var start := View();
      var regOffset := 0;
      retvalPtr := cpu.regs[SP];
      if ret.InMemory? {
        SetReg(SP, cpu.regs[SP] - 4 * ret.words);
        retvalPtr := cpu.regs[SP];
        SetReg(0, retvalPtr);
        regOffset := 1;
      }
      oldSp := ExtendStackForArgs(TotalRegs(Kinds(args)));
      assert View().regs == Prepared(start, ret, TotalRegs(Kinds(args))).regs;
      ArgumentsArrive(start, ret, args);
      WriteArgs(regOffset, args);
    }

    /**
     `call_from_host` on a host function, whatever the arguments, however the result comes back, and
     whatever the function does to registers and memory: it gets exactly `args`, with nothing else
     changed but room made below the stack pointer; the caller gets exactly its result; the stack
     pointer is as before; and everything else is as the function left it, so that a function that
     keeps the callee-saved registers and memory has a call that does.
     */
    method CallFromHost(f: HostFunction, ret: Ret, args: seq<Arg>)
      returns (result: seq<u32>, ghost entryCpu: Cpu, ghost entryMem: Words)
      requires RetOk(ret) && Returns(f, args, ret) && forall j :: 0 <= j < |args| ==> InRange(args[j])
      requires cpu.regs[SP] >= ReturnRoom(ret) + StackRoom(TotalRegs(Kinds(args)))
      modifies this
      ensures Abi.ReadArgs(State(entryCpu.regs, entryMem), entryCpu.regs[SP], FirstOffset(ret), Kinds(args)) == args
      ensures AllLie(State(entryCpu.regs, entryMem), entryCpu.regs[SP], FirstOffset(ret), args)
      ensures entryCpu.regs[SP] == old(cpu.regs[SP]) - ReturnRoom(ret) - StackRoom(TotalRegs(Kinds(args)))
      ensures ret.InMemory? ==> entryCpu.regs[0] == old(cpu.regs[SP]) - 4 * ret.words
      ensures (forall r :: 4 <= r < 16 && r != SP ==> entryCpu.regs[r] == old(cpu.regs[r])) &&
              entryCpu.cpsr == old(cpu.cpsr)
      ensures MemorySame(old(mem), entryMem, old(cpu.regs[SP]) - ReturnRoom(ret) - StackRoom(TotalRegs(Kinds(args))),
              old(cpu.regs[SP]))
      ensures var effect := f(args, entryCpu, entryMem);
              && result == effect.words
              && cpu.regs[SP] == old(cpu.regs[SP]) && cpu.cpsr == effect.cpu.cpsr
              && (forall r :: 4 <= r < 16 && r != SP ==> cpu.regs[r] == effect.cpu.regs[r])
              && MemorySame(effect.mem, mem, old(cpu.regs[SP]) - ReturnRoom(ret), old(cpu.regs[SP]))
    {
      hide Abi.WriteArgs, Abi.ReadArgs, MemoryWords, StoreWords, InRange, ToWords, AllLie, Kinds, TotalRegs;
      var retvalPtr, oldSp := PassArguments(ret, args);
      entryCpu, entryMem := cpu, mem;
      CallFromGuest(f, ret, Kinds(args));
      if ret.InMemory? {
        ResultArrives(retvalPtr, ret, f(args, entryCpu, entryMem));
      }
      SetReg(SP, oldSp);
      if ret.InMemory? {
        SetReg(SP, cpu.regs[SP] + 4 * ret.words);
        result := MemoryWords(mem, retvalPtr, ret.words);
      } else {
        result := cpu.regs[..ResultWords(ret)];
      }
    }

    // -------------------------------------------------------------- guest functions

    /** Guest code runs until it returns to the host: anything may have happened. */
    method Run()
      modifies this
    {
      cpu, mem := *, *;
    }

    /** `branch_with_link`, giving back the old PC, with its Thumb bit, and LR. */
    method BranchWithLink(f: u32, link: u32) returns (oldPc: u32, oldLr: u32)
      requires cpu.regs[PC] % 2 == 0
      modifies `cpu
      ensures cpu == Threads.BranchWithLink(old(cpu), f, link)
      ensures oldPc == PcWithThumbBit(old(cpu)) && oldLr == old(cpu.regs[LR])
    {
      oldPc, oldLr := PcWithThumbBit(cpu), cpu.regs[LR];
      cpu := Threads.BranchWithLink(cpu, f, link);
    }

    /** Branches to the guest function and pushes a frame record of the caller's r7 and LR. */
    method PushFrame(target: u32, returnRoutine: u32) returns (oldPc: u32, oldLr: u32, oldSp: u32, oldFp: u32)
      requires cpu.regs[PC] % 2 == 0 && cpu.regs[SP] >= 8
      modifies this
      ensures oldPc == PcWithThumbBit(old(cpu)) && oldLr == old(cpu.regs[LR])
      ensures oldSp == old(cpu.regs[SP]) && oldFp == old(cpu.regs[FRAME_POINTER])
      ensures cpu.regs[PC] == WithoutThumbBit(target) && cpu.regs[LR] == returnRoutine
      ensures cpu.regs[SP] == cpu.regs[FRAME_POINTER] == oldSp - 8
      ensures Load(mem, oldSp - 8) == oldFp && Load(mem, oldSp - 4) == oldLr
    {
      hide WithThumbFlag;
      oldPc, oldLr := BranchWithLink(target, returnRoutine);
      oldSp, oldFp := cpu.regs[SP], cpu.regs[FRAME_POINTER];
      SetReg(SP, oldSp - 8);
      SetReg(FRAME_POINTER, cpu.regs[SP]);
      mem := mem[cpu.regs[SP] := oldFp];
      mem := mem[cpu.regs[SP] + 4 := oldLr];
    }

    /**
     `call_from_host` on a guest function: at the entry the callee finds its arguments, a frame record
     of the caller's r7 and LR, and the return routine in LR; afterwards, whatever the guest did, PC,
     the instruction set, LR, SP and r7 are the caller's, and the result is what the guest left in r0.
     */
    method CallGuestFunction(target: u32, returnRoutine: u32, ret: Ret, args: seq<Arg>)
      returns (result: seq<u32>, ghost entry: State, ghost left: State)
      requires !ret.InMemory? && forall j :: 0 <= j < |args| ==> InRange(args[j])
      requires cpu.regs[PC] % 2 == 0 && cpu.regs[SP] >= 8 + StackRoom(TotalRegs(Kinds(args)))
      modifies this
      ensures Abi.ReadArgs(entry, entry.regs[SP], 0, Kinds(args)) == args
      ensures AllLie(entry, entry.regs[SP], 0, args)
      ensures entry.regs[SP] == old(cpu.regs[SP]) - 8 - StackRoom(TotalRegs(Kinds(args)))
      ensures entry.regs[PC] == WithoutThumbBit(target) && entry.regs[LR] == returnRoutine
      ensures var frame := old(cpu.regs[SP]) - 8;
              && entry.regs[FRAME_POINTER] == frame
              && Load(entry.mem, frame) == old(cpu.regs[FRAME_POINTER])
              && Load(entry.mem, frame + 4) == old(cpu.regs[LR])
      ensures cpu.regs[PC] == old(cpu.regs[PC]) && IsThumbMode(cpu) == old(IsThumbMode(cpu))
      ensures cpu.regs[LR] == old(cpu.regs[LR]) && cpu.regs[SP] == old(cpu.regs[SP])
      ensures cpu.regs[FRAME_POINTER] == old(cpu.regs[FRAME_POINTER])
      ensures result == left.regs[..ResultWords(ret)] && mem == left.mem
    {
      hide Abi.WriteArgs, Abi.ReadArgs, InRange, WithThumbFlag, AllLie, Kinds, TotalRegs;
      var oldPc, oldLr, oldSp, oldFp := PushFrame(target, returnRoutine);
      var _, _ := PassArguments(ret, args);
      entry := View();
      Run();
      left := View();
      PcComesBack(old(cpu), cpu);
      cpu := Threads.Branch(cpu, oldPc);
      SetReg(LR, oldLr);
      SetReg(SP, oldSp);
      SetReg(FRAME_POINTER, oldFp);
      result := cpu.regs[..ResultWords(ret)];
    }
  }

  /** PC with the Thumb flag in its lowest bit. */
  function PcWithThumbBit(c: Cpu): u32
    requires c.regs[PC] % 2 == 0
  {
    c.regs[PC] + (if IsThumbMode(c) then 1 else 0)
  }

  /** Branching back to a saved PC restores it and the instruction set. */
  lemma PcComesBack(c: Cpu, d: Cpu)
    requires c.regs[PC] % 2 == 0
    ensures var e := Threads.Branch(d, PcWithThumbBit(c)); e.regs[PC] == c.regs[PC] && IsThumbMode(e) == IsThumbMode(c)
  {
    FlagIsSet(d.cpsr, IsThumbMode(c));
  }

  lemma FlagIsSet(cpsr: u32, thumb: bool)
    ensures (WithThumbFlag(cpsr, thumb) / 32 % 2 == 1) == thumb
  {
    var high, low := cpsr / 64, cpsr % 32;
    if thumb {
      assert (high * 64 + 32 + low) / 32 == 2 * high + 1;
    } else {
      assert (high * 64 + low) / 32 == 2 * high;
    }
  }
}
