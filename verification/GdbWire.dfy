/**
 The debugger's packets as anybody may write them, character by character (src/gdb.rs:60-127,
 183-292; Debugging with GDB, Appendix E): what the checksum is, which packets are delivered, and
 what the digits in them stand for.
 */
module GdbWire {
  import opened Prelude
  import opened Gdb

  // ---------------------------------------------------------------- the checksum

  /** The sum of the character codes. */
  function CodeTotal(s: string): nat {
    if s == "" then 0 else s[0] as nat + CodeTotal(s[1..])
  }

  lemma {:induction false} TotalOfBoth(a: string, b: string)
    ensures CodeTotal(a + b) == CodeTotal(a) + CodeTotal(b)
    decreases |a|
  {
    if a == "" {
      assert a + b == b;
    } else {
      assert (a + b)[1..] == a[1..] + b;
      TotalOfBoth(a[1..], b);
    }
  }

  /** The checksum is the sum of the codes modulo 256. */
  lemma {:induction false} ChecksumIs(s: string)
    requires IsAscii(s)
    ensures Sum(s) == CodeTotal(s) % 0x100
  {
    if s != "" {
      var init, last := s[..|s| - 1], s[|s| - 1];
      ChecksumIs(init);
      TotalOfBoth(init, [last]);
      assert s == init + [last] && CodeTotal([last]) == last as nat + CodeTotal("");
      AddModulo(CodeTotal(init), last as nat);
    }
  }

  lemma AddModulo(a: nat, b: nat)
    ensures (a % 0x100 + b) % 0x100 == (a + b) % 0x100 == (a % 0x100 + b % 0x100) % 0x100
  {
  }

  /** Apart from how it is computed: of nothing, of one character, and of two parts. */
  lemma {:induction false} ChecksumLaws(c: char, a: string, b: string)
    requires IsAscii([c]) && IsAscii(a) && IsAscii(b)
    ensures Sum("") == 0 && Sum([c]) == c as nat
    ensures IsAscii(a + b) && Sum(a + b) == (Sum(a) + Sum(b)) % 0x100
  {
    ChecksumIs("");
    ChecksumIs([c]);
    assert CodeTotal([c]) == c as nat + CodeTotal("");
    ChecksumIs(a);
    ChecksumIs(b);
    ChecksumIs(a + b);
    TotalOfBoth(a, b);
    AddModulo(CodeTotal(a), CodeTotal(b));
  }

  // ---------------------------------------------------------------- digits

  /** A hexadecimal digit of either case, at its place among the sixteen. */
  lemma {:induction false} DigitIs(c: char, v: nat)
    requires v < 16
    ensures HexValue(c) == Some(v) <==> c == "0123456789abcdef"[v] || c == "0123456789ABCDEF"[v]
  {
  }

  /** The number that two characters stand for; `from_str_radix` takes a plus sign for the first. */
  function TwoDigits(c1: char, c2: char): Option<nat> {
    match HexValue(c2)
    case None => None
    case Some(low) =>
      if c1 == '+' then Some(low)
      else match HexValue(c1) case None => None case Some(high) => Some(16 * high + low)
  }

  lemma {:induction false} TwoDigitsParse(c1: char, c2: char)
    ensures ParseHex([c1, c2], 0x100) == TwoDigits(c1, c2)
  {
    assert [c1, c2][1..] == [c2] && [c1, c2][..1] == [c1] && [c1][..0] == "" && [c2][..0] == "";
    assert Digits("") == Some(0);
    assert Digits([c1]) == HexValue(c1) && Digits([c2]) == HexValue(c2);
  }

  function Power16(n: nat): nat { if n == 0 then 1 else 16 * Power16(n - 1) }

  /** A leading digit counts sixteen to the number of those after it. */
  lemma {:induction false} LeadingDigit(c: char, s: string)
    ensures Digits([c] + s) ==
            match (HexValue(c), Digits(s)) case (Some(v), Some(n)) => Some(v * Power16(|s|) + n) case _ => None
    decreases |s|
  {
    var t := [c] + s;
    if s == "" {
      assert t[..|t| - 1] == "" && Digits("") == Some(0);
    } else {
      var init := s[..|s| - 1];
      assert t[..|t| - 1] == [c] + init;
      LeadingDigit(c, init);
      if HexValue(c).Some? { Shift(HexValue(c).value, Power16(|init|)); }
    }
  }

  lemma Shift(v: nat, p: nat)
    ensures 16 * (v * p) == v * (16 * p)
  {
  }

  // ---------------------------------------------------------------- packets

  /**
   A packet written by anybody: it is delivered, and exactly it is consumed, if and only if its two last
   characters stand for the sum of the codes of its body modulo 256; otherwise reading panics.
   */
  lemma {:induction false} DeliveredIffChecksum(body: string, c1: char, c2: char, rest: string)
    requires IsAscii("$" + body + "#" + [c1, c2] + rest) && '#' !in body
    ensures ParsePacket("$" + body + "#" + [c1, c2] + rest) ==
            if TwoDigits(c1, c2) == Some(CodeTotal(body) % 0x100) then Packet(body, rest) else Garbage
  {
    hide Digits, ParseHex, Sum, TwoDigits;
    var b := "$" + body + "#" + [c1, c2] + rest;
    PositionIs("$" + body, '#', [c1, c2] + rest);
    assert b == "$" + body + ['#'] + ([c1, c2] + rest);
    assert b[1..|body| + 1] == body && b[|body| + 2..|body| + 4] == [c1, c2] && b[|body| + 4..] == rest;
    assert IsAscii(body) by { PartIsAscii(b, body); }
    ChecksumIs(body);
    TwoDigitsParse(c1, c2);
  }

  lemma PartIsAscii(b: string, body: string)
    requires IsAscii(b) && |body| < |b| && b[1..|body| + 1] == body
    ensures IsAscii(body)
  {
    forall k | 0 <= k < |body| ensures body[k] as int < 128 { assert body[k] == b[1..|body| + 1][k]; }
  }

  /** Acknowledgements are skipped one by one; anything else that is not a packet panics. */
  lemma {:induction false} NotAPacket(c: char, rest: string)
    requires IsAscii([c] + rest) && c != '$'
    ensures ParsePacket([c] + rest) == if c == '+' then Nothing(rest) else Garbage
    ensures ParsePacket("") == Nothing("")
  {
    assert ([c] + rest)[1..] == rest;
  }

  /** A packet whose end has not been read waits, unless it fills the buffer; one without its checksum waits. */
  lemma {:induction false} UnfinishedWaits(body: string, sum: string)
    requires IsAscii("$" + body + "#" + sum) && '#' !in body && |sum| < 2
    ensures IsAscii("$" + body)
    ensures ParsePacket("$" + body) == if |body| + 1 == 4096 then Garbage else Nothing("$" + body)
    ensures ParsePacket("$" + body + "#" + sum) == Nothing("$" + body + "#" + sum)
  {
    hide ParseHex, Sum;
    var b := "$" + body + "#" + sum;
    assert forall k :: 0 <= k <= |body| ==> ("$" + body)[k] == b[k];
    NoPosition("$" + body, '#');
    PositionIs("$" + body, '#', sum);
    assert b == "$" + body + ['#'] + sum;
  }

  // ---------------------------------------------------------------- words and bytes

  /** The bytes of a word, least significant first. */
  lemma {:induction false} LeastFirst(w: u32)
    ensures var b0: int, b1: int, b2: int, b3: int :=
              WordBytes(w)[0], WordBytes(w)[1], WordBytes(w)[2], WordBytes(w)[3];
            w == b0 + 0x100 * b1 + 0x10000 * b2 + 0x1000000 * b3
  {
    assert w / 0x100 / 0x100 == w / 0x10000 && w / 0x10000 / 0x100 == w / 0x1000000;
  }

  /** Where in the reply to `g` the digits of the j-th byte of the i-th register are, the higher one first. */
  lemma {:induction false} RegisterDigits(regs: seq<u32>, i: nat, j: nat)
    requires i < |regs| && j < 4
    ensures 8 * i + 2 * j + 1 < |RegsReply(regs)|
    ensures TwoDigits(RegsReply(regs)[8 * i + 2 * j], RegsReply(regs)[8 * i + 2 * j + 1]) ==
            Some(WordBytes(regs[i])[j])
  {
    hide RegsReply, HexBytes, WordBytes, HexValue;
    RegsReplyAt(regs, i);
    var word := HexBytes(WordBytes(regs[i]));
    HexBytesAt(WordBytes(regs[i]), j);
    var b := WordBytes(regs[i])[j];
    assert word[2 * j] == word[2 * j..2 * j + 2][0] && word[2 * j + 1] == word[2 * j..2 * j + 2][1];
    assert RegsReply(regs)[8 * i + 2 * j] == RegsReply(regs)[8 * i..8 * i + 8][2 * j];
    assert RegsReply(regs)[8 * i + 2 * j + 1] == RegsReply(regs)[8 * i..8 * i + 8][2 * j + 1];
    HexIsNoPlus(b / 16);
  }

  /** The bytes that `M` stores are what pairs of characters stand for; it takes them if and only if all do. */
  lemma {:induction false} BytesRead(data: string, n: nat)
    requires 2 * n <= |data|
    ensures ParseBytes(data, n).Some? <==> forall i :: 0 <= i < n ==> TwoDigits(data[2 * i], data[2 * i + 1]).Some?
    ensures ParseBytes(data, n).Some? ==>
              forall i :: 0 <= i < n ==> TwoDigits(data[2 * i], data[2 * i + 1]) == Some(ParseBytes(data, n).value[i])
    decreases n
  {
    hide ParseHex, TwoDigits;
    if n > 0 {
      BytesRead(data, n - 1);
      assert data[2 * n - 2..2 * n] == [data[2 * (n - 1)], data[2 * (n - 1) + 1]];
      TwoDigitsParse(data[2 * (n - 1)], data[2 * (n - 1) + 1]);
    }
  }

  lemma {:induction false} DigitsOfPair(t: string, c1: char, c2: char, u: string)
    requires Digits(t).Some? && HexValue(c1).Some? && HexValue(c2).Some? && u == t + [c1, c2]
    ensures TwoDigits(c1, c2).Some? && Digits(u) == Some(256 * Digits(t).value + TwoDigits(c1, c2).value)
  {
    PlusIsNoDigit();
    assert u[..|u| - 1] == t + [c1] && (t + [c1])[..|t|] == t;
    assert Digits(t + [c1]) == Some(16 * Digits(t).value + HexValue(c1).value);
  }

  lemma PlusIsNoDigit()
    ensures HexValue('+').None?
  {
  }

  lemma NoDigits()
    ensures Digits("") == Some(0)
  {
  }

  /** Eight digits as a number, from what pairs of them stand for. */
  lemma {:induction false} EightDigits(s: string)
    requires |s| == 8 && forall j :: 0 <= j < 8 ==> HexValue(s[j]).Some?
    ensures forall j :: 0 <= j < 4 ==> TwoDigits(s[2 * j], s[2 * j + 1]).Some?
    ensures Digits(s) == Some(256 * (256 * (256 * TwoDigits(s[0], s[1]).value + TwoDigits(s[2], s[3]).value)
                                     + TwoDigits(s[4], s[5]).value) + TwoDigits(s[6], s[7]).value)
  {
    hide Digits, HexValue, TwoDigits;
    NoDigits();
    DigitsOfPair("", s[0], s[1], s[..2]);
    DigitsOfPair(s[..2], s[2], s[3], s[..4]);
    DigitsOfPair(s[..4], s[4], s[5], s[..6]);
    DigitsOfPair(s[..6], s[6], s[7], s);
  }

  /** The word that `G` stores: its bytes, least significant first, are what pairs of digits stand for. */
  lemma {:induction false} WordRead(s: string, b0: u8, b1: u8, b2: u8, b3: u8)
    requires |s| == 8 && forall j :: 0 <= j < 8 ==> HexValue(s[j]).Some?
    requires TwoDigits(s[0], s[1]) == Some(b0) && TwoDigits(s[2], s[3]) == Some(b1)
    requires TwoDigits(s[4], s[5]) == Some(b2) && TwoDigits(s[6], s[7]) == Some(b3)
    ensures var c0: int, c1: int, c2: int, c3: int := b0, b1, b2, b3;
            ParseWord(s) == Some(c0 + 0x100 * c1 + 0x10000 * c2 + 0x1000000 * c3)
  {
    hide SwapBytes, HexValue, TwoDigits, Digits;
    PlusIsNoDigit();
    assert s[0] != '+';
    EightDigits(s);
    SwapOfFour(Digits(s).value, b0, b1, b2, b3);
  }
}
