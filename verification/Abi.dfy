/**
 The guest calling convention: arguments in r0-r3 and then on the stack (src/abi.rs:118-171, 222-568;
 AAPCS32 section 6.5 as adapted by Apple). An argument may be split between r3 and the stack.
 */
module Abi {
  import opened Prelude
  import opened Threads
  import opened Arm

  // ---------------------------------------------------------------- values and their words

  datatype Kind = KU32 | KI32 | KU16 | KI16 | KU8 | KI8 | KBool | KU64 | KI64

  /** A value of a `Kind`; f32, pointers and guest functions pass their bits as KU32, f64 as KU64. */
  datatype Arg = Num(kind: Kind, value: int)

  const TWO64: int := 0x1_0000_0000_0000_0000

  predicate InRange(a: Arg) {
    match a.kind
    case KU32 => 0 <= a.value < TWO32
    case KI32 => -0x8000_0000 <= a.value < 0x8000_0000
    case KU16 => 0 <= a.value < 0x1_0000
    case KI16 => -0x8000 <= a.value < 0x8000
    case KU8 => 0 <= a.value < 0x100
    case KI8 => -0x80 <= a.value < 0x80
    case KBool => 0 <= a.value < 2
    case KU64 => 0 <= a.value < TWO64
    case KI64 => -0x8000_0000_0000_0000 <= a.value < 0x8000_0000_0000_0000
  }

  /** `REG_COUNT` */
  function RegCount(k: Kind): nat {
    if k.KU64? || k.KI64? then 2 else 1
  }

  /** The value of the low bits of a word read as a signed number. */
  function Signed(w: int, modulus: int): int
    requires modulus > 0
  {
    var low := w % modulus;
    if low >= modulus / 2 then low - modulus else low
  }

  /** `to_regs`; a cast to an unsigned type sign-extends. */
  function ToWords(a: Arg): (ws: seq<u32>)
    ensures |ws| == RegCount(a.kind)
  {
    if RegCount(a.kind) == 2 then [a.value % TWO64 % TWO32, a.value % TWO64 / TWO32]
    else [a.value % TWO32]
  }

  /** `from_regs`; a cast to a narrower type truncates. */
  function FromWords(k: Kind, ws: seq<u32>): Arg
    requires |ws| == RegCount(k)
  {
    match k
    case KU32 => Num(k, ws[0])
    case KI32 => Num(k, Signed(ws[0], TWO32))
    case KU16 => Num(k, ws[0] % 0x1_0000)
    case KI16 => Num(k, Signed(ws[0], 0x1_0000))
    case KU8 => Num(k, ws[0] % 0x100)
    case KI8 => Num(k, Signed(ws[0], 0x100))
    case KBool => Num(k, if ws[0] != 0 then 1 else 0)
    case KU64 => var lo, hi: int := ws[0], ws[1]; Num(k, lo + TWO32 * hi)
    case KI64 => var lo, hi: int := ws[0], ws[1]; Num(k, Signed(lo + TWO32 * hi, TWO64))
  }

  lemma ArgRoundTrip(a: Arg)
    requires InRange(a)
    ensures FromWords(a.kind, ToWords(a)) == a
  {
    if RegCount(a.kind) == 2 { WideRoundTrip(a); } else { NarrowRoundTrip(a); }
  }

  lemma NarrowRoundTrip(a: Arg)
    requires InRange(a) && RegCount(a.kind) == 1
    ensures FromWords(a.kind, ToWords(a)) == a
  {
    match a.kind
    case KI32 => SignedIs(a.value, TWO32);
    case KI16 => SignedIs(a.value, 0x1_0000);
    case KI8 => SignedIs(a.value, 0x100);
    case _ =>
  }

  lemma SignedIs(v: int, modulus: int)
    requires modulus == TWO32 || modulus == 0x1_0000 || modulus == 0x100
    requires -(modulus / 2) <= v < modulus / 2
    ensures Signed(v % TWO32, modulus) == v
  {
  }

  lemma WideRoundTrip(a: Arg)
    requires InRange(a) && RegCount(a.kind) == 2
    ensures FromWords(a.kind, ToWords(a)) == a
  {
    var w := a.value % TWO64;
    assert w % TWO32 + TWO32 * (w / TWO32) == w;
    assert a.value < 0 ==> w == a.value + TWO64;
  }

  function AllWords(args: seq<Arg>): seq<u32> {
    if args == [] then [] else ToWords(args[0]) + AllWords(args[1..])
  }

  function Kinds(args: seq<Arg>): seq<Kind> {
    if args == [] then [] else [args[0].kind] + Kinds(args[1..])
  }

  function TotalRegs(kinds: seq<Kind>): nat {
    if kinds == [] then 0 else RegCount(kinds[0]) + TotalRegs(kinds[1..])
  }

  lemma {:induction false} AllWordsLength(args: seq<Arg>)
    ensures |AllWords(args)| == TotalRegs(Kinds(args))
  {
    if args != [] {
      AllWordsLength(args[1..]);
      assert Kinds(args)[1..] == Kinds(args[1..]);
    }
  }

  // ---------------------------------------------------------------- placing words

  /** Where the word at offset `k >= 4` goes, for a stack pointer `sp`. */
  function StackWord(sp: u32, k: nat): u32
    requires k >= 4
  {
    Add32(sp, 4 * (k - 4))
  }

  datatype State = State(regs: Regs, mem: Words)

  function PutWord(s: State, k: nat, w: u32): State {
    if k < 4 then s.(regs := s.regs[k := w]) else s.(mem := s.mem[StackWord(s.regs[SP], k) := w])
  }

  function GetWord(s: State, sp: u32, k: nat): u32 {
    if k < 4 then s.regs[k] else Load(s.mem, StackWord(sp, k))
  }

  function PutWords(s: State, k: nat, ws: seq<u32>): State
    decreases |ws|
  {
    if ws == [] then s else PutWord(PutWords(s, k, ws[..|ws| - 1]), k + |ws| - 1, ws[|ws| - 1])
  }

  function GetWords(s: State, sp: u32, k: nat, n: nat): (ws: seq<u32>)
    ensures |ws| == n
    decreases n
  {
    if n == 0 then [] else GetWords(s, sp, k, n - 1) + [GetWord(s, sp, k + n - 1)]
  }

  /** Arguments of the given kinds, read one after another from offset `k`. */
  function ReadArgs(s: State, sp: u32, k: nat, kinds: seq<Kind>): seq<Arg>
    decreases |kinds|
  {
    if kinds == [] then []
    else
      [FromWords(kinds[0], GetWords(s, sp, k, RegCount(kinds[0])))]
      + ReadArgs(s, sp, k + RegCount(kinds[0]), kinds[1..])
  }

  function WriteArgs(s: State, k: nat, args: seq<Arg>): State
    decreases |args|
  {
    if args == [] then s else WriteArgs(PutWords(s, k, ToWords(args[0])), k + |ToWords(args[0])|, args[1..])
  }

  // ---------------------------------------------------------------- round trips

  /** The stack words of offsets below `n` do not wrap around. */
  predicate Fits(sp: u32, n: nat) { n <= 4 || sp + 4 * (n - 4) <= TWO32 }

  lemma StackWordIs(sp: u32, k: nat)
    requires k >= 4 && Fits(sp, k + 1)
    ensures StackWord(sp, k) == sp + 4 * (k - 4)
  {
  }

  /** A stored word is read back at its own offset and no other. */
  lemma GetPut(s: State, k: nat, w: u32, j: nat)
    requires Fits(s.regs[SP], k + 1) && Fits(s.regs[SP], j + 1)
    ensures GetWord(PutWord(s, k, w), s.regs[SP], j) == if j == k then w else GetWord(s, s.regs[SP], j)
  {
    hide StackWord;
    if k >= 4 { StackWordIs(s.regs[SP], k); }
    if j >= 4 { StackWordIs(s.regs[SP], j); }
  }

  /** No other register and no memory outside the argument area changes. */
  predicate OnlyArguments(s: State, t: State, n: nat) {
    && (forall r :: 4 <= r < 16 ==> t.regs[r] == s.regs[r])
    && (forall x: u32 :: x < s.regs[SP] || x >= s.regs[SP] + 4 * (n - 4) ==> Load(t.mem, x) == Load(s.mem, x))
  }

  lemma PutWordOnly(s: State, k: nat, w: u32)
    requires Fits(s.regs[SP], k + 1)
    ensures OnlyArguments(s, PutWord(s, k, w), k + 1)
  {
    hide StackWord;
    if k >= 4 { StackWordIs(s.regs[SP], k); }
  }

  lemma {:induction false} PutWordsIs(s: State, k: nat, ws: seq<u32>)
    requires Fits(s.regs[SP], k + |ws|)
    ensures var t := PutWords(s, k, ws);
            && OnlyArguments(s, t, k + |ws|)
            && (forall j :: 0 <= j < |ws| ==> GetWord(t, s.regs[SP], k + j) == ws[j])
            && (forall j: nat :: j < k ==> GetWord(t, s.regs[SP], j) == GetWord(s, s.regs[SP], j))
    decreases |ws|
  {
    hide GetWord, PutWord, Load;
    if ws != [] {
      var n := |ws| - 1;
      PutWordsIs(s, k, ws[..n]);
      var m := PutWords(s, k, ws[..n]);
      PutWordOnly(m, k + n, ws[n]);
      forall j: nat | j < k + |ws|
        ensures GetWord(PutWords(s, k, ws), s.regs[SP], j) == if j == k + n then ws[n] else GetWord(m, s.regs[SP], j)
      {
        GetPut(m, k + n, ws[n], j);
      }
      forall j | 0 <= j < |ws| ensures GetWord(PutWords(s, k, ws), s.regs[SP], k + j) == ws[j] {
        if j < n { assert GetWord(m, s.regs[SP], k + j) == ws[..n][j]; }
      }
    }
  }

  lemma {:induction false} WriteArgsIsPutWords(s: State, k: nat, args: seq<Arg>)
    ensures WriteArgs(s, k, args) == PutWords(s, k, AllWords(args))
    decreases |args|
  {
    if args != [] {
      var ws := ToWords(args[0]);
      WriteArgsIsPutWords(PutWords(s, k, ws), k + |ws|, args[1..]);
      PutWordsAppend(s, k, ws, AllWords(args[1..]));
    }
  }

  lemma {:induction false} PutWordsAppend(s: State, k: nat, a: seq<u32>, b: seq<u32>)
    ensures PutWords(s, k, a + b) == PutWords(PutWords(s, k, a), k + |a|, b)
    decreases |b|
  {
    if b == [] {
      assert a + b == a;
    } else {
      assert (a + b)[..|a + b| - 1] == a + b[..|b| - 1];
      PutWordsAppend(s, k, a, b[..|b| - 1]);
    }
  }

  lemma {:induction false} GetWordsAre(s: State, sp: u32, k: nat, n: nat, j: nat)
    requires j < n
    ensures GetWords(s, sp, k, n)[j] == GetWord(s, sp, k + j)
    decreases n
  {
    if j < n - 1 { GetWordsAre(s, sp, k, n - 1, j); }
  }

  /** The words `ws` lie at offsets `k` and on. */
  predicate WordsAt(s: State, sp: u32, k: nat, ws: seq<u32>) {
    forall j :: 0 <= j < |ws| ==> GetWord(s, sp, k + j) == ws[j]
  }

  lemma WordsAtSplit(s: State, sp: u32, k: nat, a: seq<u32>, b: seq<u32>)
    requires WordsAt(s, sp, k, a + b)
    ensures WordsAt(s, sp, k, a) && WordsAt(s, sp, k + |a|, b)
  {
    hide GetWord;
    forall j | 0 <= j < |a| ensures GetWord(s, sp, k + j) == a[j] { assert (a + b)[j] == a[j]; }
    forall j | 0 <= j < |b| ensures GetWord(s, sp, k + |a| + j) == b[j] {
      assert (a + b)[|a| + j] == b[j] && k + |a| + j == k + (|a| + j);
    }
  }

  lemma WordsAtGet(s: State, sp: u32, k: nat, ws: seq<u32>)
    requires WordsAt(s, sp, k, ws)
    ensures GetWords(s, sp, k, |ws|) == ws
  {
    hide GetWord;
    forall j | 0 <= j < |ws| ensures GetWords(s, sp, k, |ws|)[j] == ws[j] { GetWordsAre(s, sp, k, |ws|, j); }
  }

  /** Reading the kinds of arguments from where their words are gives the arguments. */
  lemma {:induction false} ReadBack(s: State, sp: u32, k: nat, args: seq<Arg>)
    requires forall j :: 0 <= j < |args| ==> InRange(args[j])
    requires WordsAt(s, sp, k, AllWords(args))
    ensures ReadArgs(s, sp, k, Kinds(args)) == args
    decreases |args|
  {
    hide WordsAt, ToWords, FromWords, GetWords, InRange;
    if args != [] {
      var ws, rest := ToWords(args[0]), AllWords(args[1..]);
      WordsAtSplit(s, sp, k, ws, rest);
      WordsAtGet(s, sp, k, ws);
      assert InRange(args[0]);
      ArgRoundTrip(args[0]);
      assert Kinds(args)[1..] == Kinds(args[1..]);
      ReadBack(s, sp, k + |ws|, args[1..]);
    }
  }

  /**
   Writing arguments and reading them back gives the same values, however they are spread over
   registers and stack, and leaves everything else alone.
   */
  lemma WriteThenRead(s: State, k: nat, args: seq<Arg>)
    requires forall j :: 0 <= j < |args| ==> InRange(args[j])
    requires Fits(s.regs[SP], k + TotalRegs(Kinds(args)))
    ensures var t := WriteArgs(s, k, args);
            && ReadArgs(t, s.regs[SP], k, Kinds(args)) == args
            && OnlyArguments(s, t, k + TotalRegs(Kinds(args)))
            && (forall j: nat :: j < k ==> GetWord(t, s.regs[SP], j) == GetWord(s, s.regs[SP], j))
  {
    AllWordsLength(args);
    WriteArgsIsPutWords(s, k, args);
    PutWordsIs(s, k, AllWords(args));
    ReadBack(WriteArgs(s, k, args), s.regs[SP], k, args);
  }

  lemma {:induction false} ReadArgsAppend(s: State, sp: u32, k: nat, a: seq<Kind>, b: seq<Kind>)
    ensures ReadArgs(s, sp, k, a + b) == ReadArgs(s, sp, k, a) + ReadArgs(s, sp, k + TotalRegs(a), b)
    decreases |a|
  {
    if a == [] {
      assert a + b == b;
    } else {
      assert (a + b)[1..] == a[1..] + b;
      ReadArgsAppend(s, sp, k + RegCount(a[0]), a[1..], b);
    }
  }

  lemma {:induction false} KindsAppend(a: seq<Arg>, b: seq<Arg>)
    ensures Kinds(a + b) == Kinds(a) + Kinds(b) && |Kinds(a)| == |a|
    decreases |a|
  {
    if a == [] {
      assert a + b == b;
    } else {
      assert (a + b)[1..] == a[1..] + b;
      KindsAppend(a[1..], b);
    }
  }

  lemma {:induction false} ReadArgsLength(s: State, sp: u32, k: nat, kinds: seq<Kind>)
    ensures |ReadArgs(s, sp, k, kinds)| == |kinds|
    decreases |kinds|
  {
    if kinds != [] { ReadArgsLength(s, sp, k + RegCount(kinds[0]), kinds[1..]); }
  }

  /**
   The named arguments read first, and the variadic ones read through a list that goes on from
   there, are those written.
   */
  lemma VariadicTail(s: State, k: nat, named: seq<Arg>, variadic: seq<Arg>)
    requires forall j :: 0 <= j < |named + variadic| ==> InRange((named + variadic)[j])
    requires Fits(s.regs[SP], k + TotalRegs(Kinds(named + variadic)))
    ensures var t := WriteArgs(s, k, named + variadic);
            && ReadArgs(t, s.regs[SP], k, Kinds(named)) == named
            && ReadArgs(t, s.regs[SP], k + TotalRegs(Kinds(named)), Kinds(variadic)) == variadic
  {
    hide ReadArgs, WriteArgs, InRange;
    var t := WriteArgs(s, k, named + variadic);
    var sp := s.regs[SP];
    WriteThenRead(s, k, named + variadic);
    KindsAppend(named, variadic);
    ReadArgsAppend(t, sp, k, Kinds(named), Kinds(variadic));
    ReadArgsLength(t, sp, k, Kinds(named));
    SameParts(ReadArgs(t, sp, k, Kinds(named)), ReadArgs(t, sp, k + TotalRegs(Kinds(named)), Kinds(variadic)), named,
      variadic);
  }

  /** What a list reads after a call has been made from between its reads: the registers are those of now. */
  predicate KeptInRegisters(u: State, k: nat, ws: seq<u32>) {
    forall j :: 0 <= j < |ws| && k + j < 4 ==> u.regs[k + j] == ws[j]
  }

  /**
   Variadic arguments read when the guest has run in the meantime, and has left the stack area of the
   arguments alone: they are the words written if and only if those in registers are still there. In
   particular they are when the named arguments already fill the registers.
   */
  lemma {:induction false} VariadicAfterCallIff(s: State, k: nat, named: seq<Arg>, variadic: seq<Arg>, u: State)
    requires forall j :: 0 <= j < |named + variadic| ==> InRange((named + variadic)[j])
    requires Fits(s.regs[SP], k + TotalRegs(Kinds(named + variadic)))
    requires forall x: u32 :: s.regs[SP] <= x < s.regs[SP] + 4 * (k + TotalRegs(Kinds(named + variadic)) - 4) ==>
               Load(u.mem, x) == Load(WriteArgs(s, k, named + variadic).mem, x)
    ensures var first, ws := k + TotalRegs(Kinds(named)), AllWords(variadic);
            && (GetWords(u, s.regs[SP], first, |ws|) == ws <==> KeptInRegisters(u, first, ws))
            && (KeptInRegisters(u, first, ws) ==> ReadArgs(u, s.regs[SP], first, Kinds(variadic)) == variadic)
            && (first >= 4 ==> KeptInRegisters(u, first, ws))
  {
    hide WriteArgs, InRange, ReadArgs, TotalRegs;
    var sp := s.regs[SP];
    var t := WriteArgs(s, k, named + variadic);
    var first, ws := k + TotalRegs(Kinds(named)), AllWords(variadic);
    VariadicWords(s, k, named, variadic);
    forall j | 0 <= j < |ws| ensures GetWord(u, sp, first + j) == (if first + j < 4 then u.regs[first + j] else ws[j]) {
      if first + j >= 4 { StackWordIs(sp, first + j); }
    }
    forall j | 0 <= j < |ws| ensures GetWords(u, sp, first, |ws|)[j] == GetWord(u, sp, first + j) {
      GetWordsAre(u, sp, first, |ws|, j);
    }
    if KeptInRegisters(u, first, ws) {
      forall j | 0 <= j < |variadic| ensures InRange(variadic[j]) {
        assert (named + variadic)[|named| + j] == variadic[j];
      }
      ReadBack(u, sp, first, variadic);
    }
  }

  /** Where the variadic words lie once written. */
  lemma {:induction false} VariadicWords(s: State, k: nat, named: seq<Arg>, variadic: seq<Arg>)
    requires Fits(s.regs[SP], k + TotalRegs(Kinds(named + variadic)))
    ensures WordsAt(WriteArgs(s, k, named + variadic), s.regs[SP], k + TotalRegs(Kinds(named)), AllWords(variadic))
    ensures k + TotalRegs(Kinds(named)) + |AllWords(variadic)| == k + TotalRegs(Kinds(named + variadic))
  {
    hide WriteArgs, GetWord;
    AllWordsLength(named + variadic);
    AllWordsLength(named);
    AllWordsAppend(named, variadic);
    WriteArgsIsPutWords(s, k, named + variadic);
    PutWordsIs(s, k, AllWords(named + variadic));
    WordsAtSplit(WriteArgs(s, k, named + variadic), s.regs[SP], k, AllWords(named), AllWords(variadic));
  }

  lemma {:induction false} AllWordsAppend(a: seq<Arg>, b: seq<Arg>)
    ensures AllWords(a + b) == AllWords(a) + AllWords(b)
    decreases |a|
  {
    hide ToWords;
    if a == [] {
      assert a + b == b;
    } else {
      assert (a + b)[1..] == a[1..] + b;
      AllWordsAppend(a[1..], b);
    }
  }

  /** Changing the lowest bit of a value's first word changes the value. */
  lemma {:induction false} LowestBitMatters(a: Arg, ws: seq<u32>)
    requires InRange(a) && |ws| == RegCount(a.kind) && ws[0] == 1 - ToWords(a)[0] % 2
    ensures FromWords(a.kind, ws) != a
  {
    var w: int := ws[0];
    if RegCount(a.kind) == 2 {
      LowestBitOfWide(a.value, w, ws[1]);
    } else {
      assert w < 2 && (a.value - w) % 2 != 0;
    }
  }

  lemma LowestBitOfWide(value: int, w: int, hi: int)
    requires w == 1 - value % TWO64 % TWO32 % 2
    ensures w + TWO32 * hi != value && Signed(w + TWO32 * hi, TWO64) != value
  {
    SameParity(value, TWO64 / 2);
    SameParity(value % TWO64, TWO32 / 2);
    EvenStep(w, hi);
    SameParity(w + TWO32 * hi, TWO64 / 2);
  }

  lemma SameParity(n: int, half: int)
    requires half > 0
    ensures n % (2 * half) % 2 == n % 2
  {
    var q, r := n / (2 * half), n % (2 * half);
    assert n == 2 * (half * q) + r;
  }

  lemma EvenStep(w: int, hi: int)
    ensures (w + TWO32 * hi) % 2 == w % 2
  {
    assert w + TWO32 * hi == w + 2 * (TWO32 / 2 * hi);
  }

  /** With `v` left in the first register of the variadic arguments, others than those written are read. */
  predicate LostTo(s: State, k: nat, named: seq<Arg>, variadic: seq<Arg>, v: u32) {
    var first, t := k + TotalRegs(Kinds(named)), WriteArgs(s, k, named + variadic);
    first < 4 && ReadArgs(t.(regs := t.regs[first := v]), s.regs[SP], first, Kinds(variadic)) != variadic
  }

  /**
   The other half: if the named arguments leave a register for the variadic ones, there is something
   the guest can leave in that register, and nowhere else, that changes the arguments read.
   */
  lemma {:induction false} VariadicCanBeLost(s: State, k: nat, named: seq<Arg>, variadic: seq<Arg>)
    requires forall j :: 0 <= j < |named + variadic| ==> InRange((named + variadic)[j])
    requires Fits(s.regs[SP], k + TotalRegs(Kinds(named + variadic)))
    requires variadic != [] && k + TotalRegs(Kinds(named)) < 4
    ensures exists v: u32 :: LostTo(s, k, named, variadic, v)
  {
    hide WriteArgs, InRange, ToWords, FromWords;
    var first, t := k + TotalRegs(Kinds(named)), WriteArgs(s, k, named + variadic);
    var a := variadic[0];
    assert InRange(a) by { assert (named + variadic)[|named|] == a; }
    var v: u32 := 1 - ToWords(a)[0] % 2;
    var u := t.(regs := t.regs[first := v]);
    var ws := GetWords(u, s.regs[SP], first, RegCount(a.kind));
    GetWordsAre(u, s.regs[SP], first, RegCount(a.kind), 0);
    assert ws[0] == v;
    LowestBitMatters(a, ws);
    assert Kinds(variadic)[0] == a.kind;
    assert ReadArgs(u, s.regs[SP], first, Kinds(variadic))[0] == FromWords(a.kind, ws);
    assert LostTo(s, k, named, variadic, v);
  }

  /** A variadic argument in r1 is lost if the guest has written to r1 before it is read. */
  lemma {:induction false} RegisterArgumentIsLost(s: State, named: Arg, number: u32, now: u32)
    requires InRange(named) && RegCount(named.kind) == 1 && now != number
    ensures var t := WriteArgs(s, 0, [named, Num(KU32, number)]);
            ReadArgs(t, s.regs[SP], 1, [KU32]) == [Num(KU32, number)] &&
            ReadArgs(t.(regs := t.regs[1 := now]), s.regs[SP], 1, [KU32]) == [Num(KU32, now)]
  {
    var last := Num(KU32, number);
    assert [named, last][1..] == [last] && [last][1..] == [] && [KU32][1..] == [];
    assert ToWords(last) == [number];
    var m := PutWords(s, 0, ToWords(named));
    assert ToWords(last)[..0] == [] && PutWords(m, 1, ToWords(last)) == PutWord(m, 1, number);
    var t := WriteArgs(s, 0, [named, last]);
    assert WriteArgs(m, 1, [last]) == WriteArgs(PutWord(m, 1, number), 2, []) == PutWord(m, 1, number);
    assert t == WriteArgs(m, 1, [last]);
    var u := t.(regs := t.regs[1 := now]);
    assert GetWords(t, s.regs[SP], 1, 1) == [number] && GetWords(u, s.regs[SP], 1, 1) == [now];
  }

  lemma SameParts<T>(a: seq<T>, b: seq<T>, c: seq<T>, d: seq<T>)
    requires a + b == c + d && |a| == |c|
    ensures a == c && b == d
  {
    assert a == (a + b)[..|a|] && b == (a + b)[|a|..];
  }

  /** `VaList` passed as an argument: only its pointer, and reading starts with the stack. */
  lemma VaListArgument(s: State, p: u32, args: seq<Arg>)
    requires forall j :: 0 <= j < |args| ==> InRange(args[j])
    requires p + 4 * |AllWords(args)| <= TWO32
    requires forall j :: 0 <= j < |AllWords(args)| ==> Load(s.mem, p + 4 * j) == AllWords(args)[j]
    ensures ReadArgs(s, p, 4, Kinds(args)) == args
  {
    forall j | 0 <= j < |AllWords(args)| ensures GetWord(s, p, 4 + j) == AllWords(args)[j] { StackWordIs(p, 4 + j); }
    ReadBack(s, p, 4, args);
  }
}
