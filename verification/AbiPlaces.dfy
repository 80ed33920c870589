/**
 Where arguments and results lie in registers and memory, word by word (src/abi.rs:118-171, 343-410,
 442-562; AAPCS32 sections 6.4 and 6.5, as adapted by Apple).
 */
module AbiPlaces {
  import opened Prelude
  import opened Threads
  import opened Arm
  import opened Abi

  /** Place number `k` of the arguments: r0 to r3, and then the words from the stack pointer up. */
  predicate Holds(s: State, sp: u32, k: nat, w: u32) {
    if k < 4 then s.regs[k] == w else sp + 4 * (k - 4) < 0x1_0000_0000 && Load(s.mem, sp + 4 * (k - 4)) == w
  }

  predicate IsWide(k: Kind) { k == KU64 || k == KI64 }

  function Places(a: Arg): nat { if IsWide(a.kind) then 2 else 1 }

  /**
   The value's bits lie at place `k`, those of 64 bits with the low word there and the high word at the
   next place; negative numbers lie there in two's complement.
   */
  predicate Lies(s: State, sp: u32, k: nat, a: Arg) {
    if IsWide(a.kind) then
      var bits := a.value % 0x1_0000_0000_0000_0000;
      Holds(s, sp, k, bits % 0x1_0000_0000) && Holds(s, sp, k + 1, bits / 0x1_0000_0000)
    else Holds(s, sp, k, a.value % 0x1_0000_0000)
  }

  /** The arguments lie one after another from place `k` on, with no place left out. */
  predicate AllLie(s: State, sp: u32, k: nat, args: seq<Arg>)
    decreases |args|
  {
    args == [] || (Lies(s, sp, k, args[0]) && AllLie(s, sp, k + Places(args[0]), args[1..]))
  }

  lemma PlacesAre(a: Arg)
    ensures |ToWords(a)| == Places(a)
  {
  }

  lemma HeldAt(s: State, sp: u32, k: nat, w: u32)
    requires GetWord(s, sp, k) == w && Fits(sp, k + 1)
    ensures Holds(s, sp, k, w)
  {
    if k >= 4 { StackWordIs(sp, k); }
  }

  lemma GotFrom(s: State, sp: u32, k: nat, w: u32)
    requires Holds(s, sp, k, w)
    ensures GetWord(s, sp, k) == w
  {
    if k >= 4 { assert Fits(sp, k) && StackWord(sp, k) == sp + 4 * (k - 4); }
  }

  lemma {:induction false} WordsLie(s: State, sp: u32, k: nat, a: Arg)
    requires WordsAt(s, sp, k, ToWords(a)) && Fits(sp, k + |ToWords(a)|)
    ensures Lies(s, sp, k, a)
  {
    hide GetWord, Holds;
    var ws := ToWords(a);
    assert GetWord(s, sp, k + 0) == ws[0];
    HeldAt(s, sp, k, ws[0]);
    if IsWide(a.kind) {
      assert GetWord(s, sp, k + 1) == ws[1];
      HeldAt(s, sp, k + 1, ws[1]);
    }
  }

  lemma {:induction false} AllWordsLie(s: State, sp: u32, k: nat, args: seq<Arg>)
    requires WordsAt(s, sp, k, AllWords(args)) && Fits(sp, k + |AllWords(args)|)
    ensures AllLie(s, sp, k, args)
    decreases |args|
  {
    hide WordsAt, ToWords, Lies;
    if args != [] {
      WordsAtSplit(s, sp, k, ToWords(args[0]), AllWords(args[1..]));
      PlacesAre(args[0]);
      WordsLie(s, sp, k, args[0]);
      AllWordsLie(s, sp, k + Places(args[0]), args[1..]);
    }
  }

  /** Written arguments lie in their places, one after another. */
  lemma {:induction false} WrittenArgumentsLie(s: State, k: nat, args: seq<Arg>)
    requires Fits(s.regs[SP], k + TotalRegs(Kinds(args)))
    ensures AllLie(WriteArgs(s, k, args), s.regs[SP], k, args)
  {
    hide WriteArgs, GetWord;
    AllWordsLength(args);
    WriteArgsIsPutWords(s, k, args);
    PutWordsIs(s, k, AllWords(args));
    AllWordsLie(WriteArgs(s, k, args), s.regs[SP], k, args);
  }

  lemma {:induction false} LyingIsRead(s: State, sp: u32, k: nat, a: Arg)
    requires InRange(a) && Lies(s, sp, k, a)
    ensures FromWords(a.kind, GetWords(s, sp, k, RegCount(a.kind))) == a
  {
    hide GetWord, Holds;
    var ws := ToWords(a);
    GotFrom(s, sp, k, ws[0]);
    if IsWide(a.kind) { GotFrom(s, sp, k + 1, ws[1]); }
    forall j | 0 <= j < |ws| ensures GetWord(s, sp, k + j) == ws[j] {
      if j == 0 { assert k + j == k; }
    }
    WordsAtGet(s, sp, k, ws);
    ArgRoundTrip(a);
  }

  /** Whoever has put them there, arguments that lie in their places are read. */
  lemma {:induction false} LyingArgumentsAreRead(s: State, sp: u32, k: nat, args: seq<Arg>)
    requires AllLie(s, sp, k, args) && forall j :: 0 <= j < |args| ==> InRange(args[j])
    ensures ReadArgs(s, sp, k, Kinds(args)) == args
    decreases |args|
  {
    hide Lies, FromWords, GetWords, InRange;
    if args != [] {
      assert InRange(args[0]);
      LyingIsRead(s, sp, k, args[0]);
      assert Kinds(args)[1..] == Kinds(args[1..]);
      LyingArgumentsAreRead(s, sp, k + Places(args[0]), args[1..]);
    }
  }

  /** What a word, or two, are as a value of a kind: in range, and the same bits as far as the kind has them. */
  lemma {:induction false} ReadValueIs(k: Kind, ws: seq<u32>)
    requires |ws| == RegCount(k)
    ensures InRange(FromWords(k, ws)) && FromWords(k, ws).kind == k
    ensures var v, w: int := FromWords(k, ws).value, ws[0];
            match k
            case KBool => v == 1 <==> w != 0
            case KU8 => (v - w) % 0x100 == 0
            case KI8 => (v - w) % 0x100 == 0
            case KU16 => (v - w) % 0x1_0000 == 0
            case KI16 => (v - w) % 0x1_0000 == 0
            case KU32 => v == w
            case KI32 => (v - w) % 0x1_0000_0000 == 0
            case KU64 => var high: int := ws[1]; v == w + 0x1_0000_0000 * high
            case KI64 =>
              var high: int := ws[1]; (v - (w + 0x1_0000_0000 * high)) % 0x1_0000_0000_0000_0000 == 0
  {
    match k
    case KI8 => SignedKeepsBits(ws[0], 0x100);
    case KI16 => SignedKeepsBits(ws[0], 0x1_0000);
    case KI32 => SignedKeepsBits(ws[0], TWO32);
    case KI64 =>
      var w: int, high: int := ws[0], ws[1];
      SignedKeepsBits(w + TWO32 * high, TWO64);
    case _ =>
  }

  lemma SignedKeepsBits(w: int, modulus: int)
    requires modulus == 0x100 || modulus == 0x1_0000 || modulus == TWO32 || modulus == TWO64
    ensures (Signed(w, modulus) - w) % modulus == 0
    ensures -(modulus / 2) <= Signed(w, modulus) < modulus / 2
  {
  }
}
