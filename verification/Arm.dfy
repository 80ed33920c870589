/**
 The few A32 instructions that the dynamic linker writes or restores (src/dyld.rs:193-204, 250-252),
 with the bitwise operations it builds them with.
 */
module Arm {
  import opened Prelude
  import opened Threads

  // ---------------------------------------------------------------- bits

  function Or(a: nat, b: nat): nat
    decreases a
  {
    if a == 0 then b
    else 2 * Or(a / 2, b / 2) + (if a % 2 == 1 || b % 2 == 1 then 1 else 0)
  }

  function And(a: nat, b: nat): nat
    decreases a
  {
    if a == 0 then 0
    else 2 * And(a / 2, b / 2) + (if a % 2 == 1 && b % 2 == 1 then 1 else 0)
  }

  function Pow2(k: nat): (p: nat)
    ensures p > 0
  {
    if k == 0 then 1 else 2 * Pow2(k - 1)
  }

  lemma OrDoubles(b: nat, a: nat, c: nat)
    requires c < 2
    ensures Or(2 * b + c, 2 * a) == 2 * Or(b, a) + c
  {
  }

  /** The number whose low `k` bits are `lo` and whose other bits are `hi`. */
  function Cat(hi: nat, lo: nat, k: nat): nat {
    if k == 0 then hi else 2 * Cat(hi, lo / 2, k - 1) + lo % 2
  }

  lemma {:induction false} CatIs(hi: nat, lo: nat, k: nat)
    requires lo < Pow2(k)
    ensures Cat(hi, lo, k) == hi * Pow2(k) + lo
    decreases k
  {
    if k > 0 {
      CatIs(hi, lo / 2, k - 1);
      Doubles(hi, Pow2(k - 1));
    }
  }

  lemma {:induction false} OrOfCat(hi: nat, lo: nat, a: nat, k: nat)
    ensures Or(Cat(hi, lo, k), Cat(a, 0, k)) == Cat(Or(hi, a), lo, k)
    decreases k
  {
    if k > 0 {
      OrOfCat(hi, lo / 2, a, k - 1);
      OrDoubles(Cat(hi, lo / 2, k - 1), Cat(a, 0, k - 1), lo % 2);
    }
  }

  /** If the low `k` bits of the right operand are clear, those of the left one pass through. */
  lemma {:induction false} OrSplits(hi: nat, lo: nat, a: nat, k: nat)
    requires lo < Pow2(k)
    ensures Or(hi * Pow2(k) + lo, a * Pow2(k)) == Or(hi, a) * Pow2(k) + lo
  {
    CatIs(hi, lo, k);
    CatIs(a, 0, k);
    CatIs(Or(hi, a), lo, k);
    OrOfCat(hi, lo, a, k);
  }

  lemma Doubles(a: nat, p: nat)
    ensures a * (2 * p) == 2 * (a * p)
  {
  }

  lemma {:induction false} LowestBits(b: nat, a: nat, c: nat)
    requires b > 0 && c % 2 == 1 - a % 2
    ensures Or(b, a) == a <==> Or(b / 2, a / 2) == a / 2 && (b % 2 == 1 ==> a % 2 == 1)
    ensures And(b, c) == 0 <==> And(b / 2, c / 2) == 0 && (b % 2 == 1 ==> a % 2 == 1)
    ensures Or(b, a) <= 2 * Or(b / 2, a / 2) + 1
  {
  }

  lemma Complement(p: nat, a: nat)
    requires a < 2 * p
    ensures (2 * p - 1 - a) / 2 == p - 1 - a / 2 && (2 * p - 1 - a) % 2 == 1 - a % 2
  {
  }

  /** Adding the bits of `b` to `a` changes nothing exactly when `b` has no bit that `a` lacks. */
  lemma {:induction false} OrAbsorbsIff(b: nat, a: nat, k: nat)
    requires a < Pow2(k) && b < Pow2(k)
    ensures Or(b, a) == a <==> And(b, Pow2(k) - 1 - a) == 0
    ensures Or(b, a) < Pow2(k)
    decreases k
  {
    if k > 0 && b > 0 {
      hide Or, And;
      OrAbsorbsIff(b / 2, a / 2, k - 1);
      Complement(Pow2(k - 1), a);
      LowestBits(b, a, Pow2(k) - 1 - a);
    }
  }

  // ---------------------------------------------------------------- instructions

  const RET: u32 := 0xe12fff1e                  // bx lr
  const TRAP: u32 := 0xe7ffdefe
  const SVC_BASE: u32 := 0xef000000
  const LDR_PC_RELATIVE: u32 := 0xe59ff000      // ldr pc, [pc, #imm]; the low 12 bits are imm
  const LDR_R12_0: u32 := 0xe59fc000            // ldr r12, [pc, #0]
  const LDR_R12_4: u32 := 0xe59fc004            // ldr r12, [pc, #4]
  const ADD_R12_PC: u32 := 0xe08fc00c           // add r12, pc, r12
  const LDR_PC_R12: u32 := 0xe59cf000           // ldr pc, [r12]

  datatype Insn =
    | LdrPcRelative(imm: nat)
    | LdrR12(imm: nat)
    | AddR12Pc
    | LdrPcR12
    | BxLr
    | Svc(imm: nat)
    | Undefined

  function Decode(w: u32): Insn {
    if w / 0x1000 == 0xe59ff then LdrPcRelative(w % 0x1000)
    else if w / 0x1000 == 0xe59fc then LdrR12(w % 0x1000)
    else if w == ADD_R12_PC then AddR12Pc
    else if w == LDR_PC_R12 then LdrPcR12
    else if w == RET then BxLr
    else if w / 0x1000000 == 0xef then Svc(w % 0x1000000)
    else Undefined
  }

  /** `encode_a32_svc`; `None` where its assertion about the top byte fails. */
  function EncodeSvc(imm: u32): Option<u32> {
    if imm < 0x1000000 then Some(SVC_BASE + imm) else None
  }

  /** Or-ing in the opcode is what the encoder does, and decoding gives the number back. */
  lemma {:induction false} EncodedSvcDecodes(imm: u32)
    ensures match EncodeSvc(imm)
            case Some(w) => Decode(w) == Svc(imm) && w == Or(imm, SVC_BASE)
            case None => imm >= 0x1000000
  {
    if imm < 0x1000000 {
      PowersUpTo24();
      OrSplits(0, imm, 0xef, 24);
    }
  }

  lemma PowersUpTo24()
    ensures Pow2(12) == 0x1000 && Pow2(20) == 0x100000 && Pow2(24) == 0x1000000
  {
    assert Pow2(4) == 16;
    assert Pow2(8) == 0x100;
    assert Pow2(12) == 0x1000;
    assert Pow2(16) == 0x10000;
    assert Pow2(20) == 0x100000;
  }

  /** The bits above the low twelve that an offset may not set: those `ldr pc, [pc]` does not have. */
  const STRAY_BITS: nat := 0x1a600

  /** Or-ing an offset into an instruction `top` whose low twelve bits are clear. */
  lemma {:induction false} OffsetIntoWord(offset: u32, top: nat)
    requires top < 0x100000
    ensures Or(offset, top * 0x1000) == Or(offset / 0x1000, top) * 0x1000 + offset % 0x1000
    ensures Or(offset / 0x1000, top) < 0x100000
    ensures Or(offset / 0x1000, top) == top <==> And(offset / 0x1000, 0xfffff - top) == 0
  {
    hide Or, And, Pow2;
    PowersUpTo24();
    OrSplits(offset / 0x1000, offset % 0x1000, top, 12);
    OrAbsorbsIff(offset / 0x1000, top, 20);
  }

  /** Or-ing an offset into `ldr pc, [pc]` gives that instruction again exactly when the offset sets no stray bit. */
  lemma {:induction false} OffsetIntoInstruction(offset: u32)
    ensures Or(offset, LDR_PC_RELATIVE) < TWO32 && Or(offset, LDR_PC_RELATIVE) % 0x1000 == offset % 0x1000
    ensures Decode(Or(offset, LDR_PC_RELATIVE)) == LdrPcRelative(offset % 0x1000) <==>
            And(offset / 0x1000, STRAY_BITS) == 0
    ensures Decode(Or(offset, LDR_PC_RELATIVE)) == LdrPcRelative(offset) <==> offset < 0x1000
    ensures offset < 0x1000 ==> And(offset / 0x1000, STRAY_BITS) == 0
  {
    hide Or, And, Decode;
    OffsetIntoWord(offset, 0xe59ff);
    LoadPcDecodes(Or(offset / 0x1000, 0xe59ff), offset % 0x1000);
    NothingStray();
  }

  /** A pointer 8 KiB away, say, is taken to be no distance away: no bit is stray, and the load is another one. */
  lemma {:induction false} FarPointersMiss(offset: u32)
    requires offset == 0x2000
    ensures Or(offset, LDR_PC_RELATIVE) < TWO32
    ensures And(offset / 0x1000, STRAY_BITS) == 0 && Decode(Or(offset, LDR_PC_RELATIVE)) == LdrPcRelative(0)
  {
    hide Or, Decode;
    OffsetIntoInstruction(offset);
    TwoIsNotStray(offset / 0x1000, STRAY_BITS);
  }

  lemma TwoIsNotStray(n: nat, bits: nat)
    requires n == 2 && bits / 2 % 2 == 0
    ensures And(n, bits) == 0
  {
    assert And(n / 2, bits / 2) == 2 * And(n / 2 / 2, bits / 2 / 2);
  }

  lemma NothingStray()
    ensures And(0, STRAY_BITS) == 0
  {
  }

  lemma LoadPcDecodes(hi: nat, lo: nat)
    requires hi < 0x100000 && lo < 0x1000
    ensures Decode(hi * 0x1000 + lo) == LdrPcRelative(lo) <==> hi == 0xe59ff
    ensures Decode(hi * 0x1000 + lo).LdrPcRelative? ==> Decode(hi * 0x1000 + lo).imm == lo
  {
    assert (hi * 0x1000 + lo) / 0x1000 == hi && (hi * 0x1000 + lo) % 0x1000 == lo;
  }

  // ---------------------------------------------------------------- execution

  type Words = map<u32, u32>

  /** The word at `a`; words nobody wrote read as zero. */
  function Load(mem: Words, a: u32): u32 {
    if a in mem then mem[a] else 0
  }

  predicate IsThumbMode(c: Cpu) { c.cpsr / 32 % 2 == 1 }

  const R12: nat := 12

  function Advance(c: Cpu): Cpu {
    SetReg(c, PC, Add32(c.regs[PC], 4))
  }

  /** One instruction that is not an SVC. Reading PC gives the address of the instruction plus 8. */
  function Execute(c: Cpu, mem: Words): Option<Cpu> {
    var pc := c.regs[PC];
    match Decode(Load(mem, pc))
    case LdrPcRelative(imm) => Some(Branch(c, Load(mem, Add32(pc, 8 + imm))))
    case LdrR12(imm) => Some(Advance(SetReg(c, R12, Load(mem, Add32(pc, 8 + imm)))))
    case AddR12Pc => Some(Advance(SetReg(c, R12, Add32(Add32(pc, 8), c.regs[R12]))))
    case LdrPcR12 => Some(Branch(c, Load(mem, c.regs[R12])))
    case BxLr => Some(Branch(c, c.regs[LR]))
    case Svc(_) => None
    case Undefined => None
  }
}
