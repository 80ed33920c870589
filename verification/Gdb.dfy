/**
 The debugger's packets (src/gdb.rs:60-127, 183-292, 325-351; Debugging with GDB, Appendix E).
 Packets are ASCII; characters stand for their bytes.
 */
module Gdb {
  import opened Prelude

  // ---------------------------------------------------------------- hexadecimal

  function HexDigit(n: nat): (c: char)
    requires n < 16
    ensures HexValue(c) == Some(n)
  {
    "0123456789abcdef"[n]
  }

  function HexValue(c: char): (v: Option<nat>)
    ensures v.Some? ==> v.value < 16
  {
    if '0' <= c <= '9' then Some((c - '0') as nat)
    else if 'a' <= c <= 'f' then Some((c - 'a') as nat + 10)
    else if 'A' <= c <= 'F' then Some((c - 'A') as nat + 10)
    else None
  }

  function Digits(s: string): Option<nat> {
    if s == "" then Some(0)
    else
      match (Digits(s[..|s| - 1]), HexValue(s[|s| - 1]))
      case (Some(high), Some(low)) => Some(16 * high + low)
      case _ => None
  }

  /**
   `from_str_radix(s, 16)` into a type holding numbers below `limit`: at least one digit, possibly
   after a plus sign.
   */
  function ParseHex(s: string, limit: nat): (r: Option<nat>)
    ensures r.Some? ==> r.value < limit
  {
    var t := if s != "" && s[0] == '+' then s[1..] else s;
    if t == "" then None
    else match Digits(t) case Some(n) => (if n < limit then Some(n) else None) case None => None
  }

  function Hex2(b: u8): (s: string)
    ensures |s| == 2
  {
    [HexDigit(b / 16), HexDigit(b % 16)]
  }

  lemma {:induction false} Hex2Parses(b: u8)
    ensures ParseHex(Hex2(b), 0x100) == Some(b)
  {
    var s := Hex2(b);
    assert s[..1] == [s[0]] && s[..1][..0] == "";
    assert Digits("") == Some(0);
    assert Digits(s[..1]) == Some(b / 16);
    assert s[0] != '+' by { HexIsNoPlus(b / 16); }
  }

  lemma HexIsNoPlus(n: nat)
    requires n < 16
    ensures HexDigit(n) != '+' && HexDigit(n) != ',' && HexDigit(n) != ':' && HexDigit(n) != '#'
  {
    assert HexValue('+').None? && HexValue(',').None? && HexValue(':').None? && HexValue('#').None?;
  }

  function HexBytes(bs: seq<u8>): (s: string)
    ensures |s| == 2 * |bs|
  {
    if bs == [] then "" else HexBytes(bs[..|bs| - 1]) + Hex2(bs[|bs| - 1])
  }

  lemma {:induction false} HexBytesAt(bs: seq<u8>, i: nat)
    requires i < |bs|
    ensures HexBytes(bs)[2 * i..2 * i + 2] == Hex2(bs[i])
    decreases |bs|
  {
    if i < |bs| - 1 {
      var init := bs[..|bs| - 1];
      HexBytesAt(init, i);
      assert HexBytes(bs)[2 * i..2 * i + 2] == HexBytes(init)[2 * i..2 * i + 2];
    }
  }

  /** A number as the debugger writes it. */
  function Hex(n: nat): (s: string)
    ensures s != ""
  {
    if n < 16 then [HexDigit(n)] else Hex(n / 16) + [HexDigit(n % 16)]
  }

  lemma {:induction false} HexParses(n: nat)
    ensures Digits(Hex(n)) == Some(n) && forall c :: c in Hex(n) ==> c != '+' && c != ',' && c != ':'
    decreases n
  {
    HexIsNoPlus(n % 16);
    if n < 16 {
      assert [HexDigit(n)][..0] == "" && Digits("") == Some(0);
    } else {
      HexParses(n / 16);
      var s := Hex(n);
      assert s[..|s| - 1] == Hex(n / 16);
    }
  }

  lemma ParseOfHex(n: nat, limit: nat)
    requires n < limit
    ensures ParseHex(Hex(n), limit) == Some(n)
  {
    HexParses(n);
    assert Hex(n)[0] in Hex(n);
  }

  // ---------------------------------------------------------------- framing

  function Sum(s: string): nat
    requires IsAscii(s)
  {
    if s == "" then 0 else (Sum(s[..|s| - 1]) + s[|s| - 1] as nat) % 0x100
  }

  predicate IsAscii(s: string) { forall k :: 0 <= k < |s| ==> s[k] as int < 128 }

  lemma {:induction false} SumIsByte(s: string)
    requires IsAscii(s)
    ensures Sum(s) < 0x100
  {
  }

  /** What `send_packet` writes. */
  function Frame(body: string): string
    requires IsAscii(body)
  {
    SumIsByte(body);
    "$" + body + "#" + Hex2(Sum(body))
  }

  const CAPACITY: nat := 4096

  datatype Read = Nothing(buffer: string) | Packet(body: string, buffer: string) | Garbage

  function Position(s: string, c: char): (i: nat)
    ensures i <= |s| && c !in s[..i] && (i < |s| ==> s[i] == c)
  {
    if s == "" || s[0] == c then 0
    else
      var i := Position(s[1..], c);
      assert s[..i + 1] == [s[0]] + s[1..][..i];
      i + 1
  }

  lemma {:induction false} PositionIs(a: string, c: char, b: string)
    requires c !in a
    ensures Position(a + [c] + b, c) == |a|
    decreases |a|
  {
    if a != "" {
      PositionIs(a[1..], c, b);
      assert (a + [c] + b)[1..] == a[1..] + [c] + b;
    }
  }

  lemma {:induction false} NoPosition(s: string, c: char)
    requires c !in s
    ensures Position(s, c) == |s|
    decreases |s|
  {
    if s != "" { NoPosition(s[1..], c); }
  }

  /** `read_packet` on what is buffered, which is left in `buffer`; `Garbage` where it panics. */
  function ParsePacket(buffer: string): (r: Read)
    requires IsAscii(buffer)
    ensures r.Garbage? || IsAscii(r.buffer)
  {
    if buffer == "" then Nothing(buffer)
    else if buffer[0] == '+' then Nothing(buffer[1..])
    else if buffer[0] != '$' then Garbage
    else
      var end := Position(buffer, '#');
      if end == |buffer| then (if |buffer| == CAPACITY then Garbage else Nothing(buffer))
      else if |buffer| < end + 3 then Nothing(buffer)
      else
        var body := buffer[1..end];
        match ParseHex(buffer[end + 1..end + 3], 0x100)
        case None => Garbage
        case Some(checksum) => if checksum == Sum(body) then Packet(body, buffer[end + 3..]) else Garbage
  }

  /** A framed packet is read back, and exactly it is consumed. */
  lemma {:induction false} FrameThenRead(body: string, rest: string)
    requires IsAscii(body) && IsAscii(rest) && '#' !in body
    ensures IsAscii(Frame(body) + rest)
    ensures ParsePacket(Frame(body) + rest) == Packet(body, rest)
  {
    SumIsByte(body);
    FrameIsAscii(body);
    var h := Hex2(Sum(body));
    var b := Frame(body) + rest;
    Hex2Parses(Sum(body));
    PositionIs("$" + body, '#', h + rest);
    assert b == "$" + body + ['#'] + (h + rest);
    assert b[1..|body| + 1] == body && b[|body| + 2..|body| + 4] == h && b[|body| + 4..] == rest;
  }

  lemma {:induction false} FrameIsAscii(body: string)
    requires IsAscii(body)
    ensures IsAscii(Frame(body))
  {
    SumIsByte(body);
    HexIsAscii(Sum(body) / 16);
    HexIsAscii(Sum(body) % 16);
  }

  lemma HexIsAscii(n: nat)
    requires n < 16
    ensures HexDigit(n) as int < 128
  {
    var c := HexDigit(n);
    assert c <= '9' || c <= 'F' || c <= 'f';
  }

  /**
   Part of a frame is not a packet, and stays in the buffer; if it fills the buffer without an end,
   reading panics.
   */
  lemma {:induction false} PartOfFrameWaits(body: string, n: nat)
    requires IsAscii(body) && '#' !in body && 0 < n < |Frame(body)|
    ensures IsAscii(Frame(body)[..n])
    ensures ParsePacket(Frame(body)[..n]) == if n == CAPACITY && n <= |body| + 1 then Garbage
            else Nothing(Frame(body)[..n])
  {
    FrameIsAscii(body);
    SumIsByte(body);
    var b := Frame(body)[..n];
    var whole := "$" + body;
    assert b[0] == '$';
    if n <= |whole| {
      assert b == whole[..n] && '#' !in b;
      NoPosition(b, '#');
    } else {
      assert b == whole + ['#'] + b[|whole| + 1..];
      PositionIs(whole, '#', b[|whole| + 1..]);
    }
  }

  // ---------------------------------------------------------------- reading again and again

  predicate AllAscii(pieces: seq<string>) { forall k :: 0 <= k < |pieces| ==> IsAscii(pieces[k]) }

  /** `fill_buf`: the connection delivers its next piece only when nothing is buffered. */
  function Filled(buffer: string, incoming: seq<string>): (r: (string, seq<string>))
    requires IsAscii(buffer) && AllAscii(incoming)
    ensures IsAscii(r.0) && AllAscii(r.1)
  {
    if buffer == "" && incoming != [] then (incoming[0], incoming[1..]) else (buffer, incoming)
  }

  /** What that many calls of `read_packet` give, up to a panic. */
  function Polled(buffer: string, incoming: seq<string>, calls: nat): seq<Read>
    requires IsAscii(buffer) && AllAscii(incoming)
    decreases calls
  {
    if calls == 0 then []
    else
      var (b, rest) := Filled(buffer, incoming);
      var r := ParsePacket(b);
      [r] + if r.Garbage? then [] else Polled(r.buffer, rest, calls - 1)
  }

  /** One of the calls delivers the body. */
  predicate Delivers(rs: seq<Read>, body: string) {
    exists k :: 0 <= k < |rs| && rs[k].Packet? && rs[k].body == body
  }

  lemma {:induction false} PartIsNeverRead(body: string, n: nat, incoming: seq<string>, calls: nat)
    requires IsAscii(body) && '#' !in body && 0 < n < |Frame(body)| && AllAscii(incoming)
    ensures IsAscii(Frame(body)[..n])
    ensures forall k :: 0 <= k < |Polled(Frame(body)[..n], incoming, calls)| ==>
            !Polled(Frame(body)[..n], incoming, calls)[k].Packet?
    decreases calls
  {
    hide ParsePacket, Frame;
    PartOfFrameWaits(body, n);
    if calls > 0 { PartIsNeverRead(body, n, incoming, calls - 1); }
  }

  /**
   Whatever the connection delivers later, and however often it is asked: the body of a frame of
   which a part is buffered is delivered if and only if that part is all of it.
   */
  lemma {:induction false} BufferedFrameDeliveredIff(body: string, n: nat, incoming: seq<string>, calls: nat)
    requires IsAscii(body) && '#' !in body && 0 < n <= |Frame(body)| && AllAscii(incoming) && calls > 0
    ensures IsAscii(Frame(body)[..n])
    ensures Delivers(Polled(Frame(body)[..n], incoming, calls), body) <==> n == |Frame(body)|
  {
    hide ParsePacket, Frame;
    FrameIsAscii(body);
    if n < |Frame(body)| {
      PartIsNeverRead(body, n, incoming, calls);
    } else {
      FrameThenRead(body, "");
      assert Frame(body)[..n] == Frame(body) == Frame(body) + "";
      assert Polled(Frame(body), incoming, calls)[0] == Packet(body, "");
    }
  }

  /** The same when the first piece to arrive is part of a frame. */
  lemma {:induction false} ArrivingFrameDeliveredIff(body: string, n: nat, later: seq<string>, calls: nat)
    requires IsAscii(body) && '#' !in body && 0 < n <= |Frame(body)| && AllAscii(later) && calls > 0
    ensures AllAscii([Frame(body)[..n]] + later)
    ensures Delivers(Polled("", [Frame(body)[..n]] + later, calls), body) <==> n == |Frame(body)|
  {
    hide ParsePacket, Frame;
    BufferedFrameDeliveredIff(body, n, later, calls);
    var part := Frame(body)[..n];
    assert ([part] + later)[1..] == later;
    assert Polled("", [part] + later, calls) == Polled(part, later, calls);
  }

  // ---------------------------------------------------------------- payloads

  /** A word as GDB expects it: its bytes, least significant first. */
  function WordBytes(w: u32): (b: seq<u8>)
    ensures |b| == 4
  {
    [w % 0x100, w / 0x100 % 0x100, w / 0x10000 % 0x100, w / 0x1000000]
  }

  function WordOf(b: seq<u8>): u32
    requires |b| == 4
  {
    var b0: int, b1: int, b2: int, b3: int := b[0], b[1], b[2], b[3];
    b0 + 0x100 * b1 + 0x10000 * b2 + 0x1000000 * b3
  }

  lemma {:induction false} WordRoundTrip(w: u32)
    ensures WordOf(WordBytes(w)) == w
  {
    assert w / 0x100 / 0x100 == w / 0x10000 && w / 0x10000 / 0x100 == w / 0x1000000;
  }

  function RegsReply(regs: seq<u32>): (s: string)
    ensures |s| == 8 * |regs|
  {
    if regs == [] then "" else RegsReply(regs[..|regs| - 1]) + HexBytes(WordBytes(regs[|regs| - 1]))
  }

  lemma {:induction false} RegsReplyAt(regs: seq<u32>, i: nat)
    requires i < |regs|
    ensures RegsReply(regs)[8 * i..8 * i + 8] == HexBytes(WordBytes(regs[i]))
    decreases |regs|
  {
    if i < |regs| - 1 {
      var init := regs[..|regs| - 1];
      RegsReplyAt(init, i);
      assert RegsReply(regs)[8 * i..8 * i + 8] == RegsReply(init)[8 * i..8 * i + 8];
    }
  }

  /** `u32::from_le_bytes(word.to_be_bytes())` */
  function SwapBytes(w: u32): u32 {
    WordOf([w / 0x1000000, w / 0x10000 % 0x100, w / 0x100 % 0x100, w % 0x100])
  }

  /** Eight characters as a number, whose bytes are then put in GDB's order. */
  function ParseWord(s: string): Option<u32>
    requires |s| == 8
  {
    match ParseHex(s, TWO32) case Some(n) => Some(SwapBytes(n)) case None => None
  }

  lemma {:induction false} DigitsOfByteMore(s: string, high: nat, b: u8)
    requires Digits(s) == Some(high)
    ensures Digits(s + Hex2(b)) == Some(256 * high + b)
  {
    var h := Hex2(b);
    var t := s + h;
    assert t[..|t| - 1] == s + [h[0]] && (s + [h[0]])[..|s|] == s;
    assert Digits(s + [h[0]]) == Some(16 * high + b / 16);
  }

  /** Bytes as a number, most significant first. */
  function BigEndian(bs: seq<u8>): nat {
    if bs == [] then 0 else 256 * BigEndian(bs[..|bs| - 1]) + bs[|bs| - 1]
  }

  lemma {:induction false} DigitsOfBytes(bs: seq<u8>)
    ensures Digits(HexBytes(bs)) == Some(BigEndian(bs))
    decreases |bs|
  {
    hide Hex2;
    if bs == [] {
      assert Digits("") == Some(0);
    } else {
      var init, last := bs[..|bs| - 1], bs[|bs| - 1];
      DigitsOfBytes(init);
      DigitsOfByteMore(HexBytes(init), BigEndian(init), last);
    }
  }

  lemma {:induction false} FourBigEndian(b: seq<u8>)
    requires |b| == 4
    ensures var b0: int, b1: int, b2: int, b3: int := b[0], b[1], b[2], b[3];
            BigEndian(b) == 256 * (256 * (256 * b0 + b1) + b2) + b3 < TWO32
  {
    var b0: int, b1: int, b2: int := b[0], b[1], b[2];
    assert b[..1][..0] == [] && BigEndian([]) == 0;
    assert BigEndian(b[..1]) == b0;
    assert b[..2][..1] == b[..1] && BigEndian(b[..2]) == 256 * b0 + b1;
    assert b[..3][..2] == b[..2] && BigEndian(b[..3]) == 256 * (256 * b0 + b1) + b2;
  }

  lemma LastByte(high: nat, b: u8)
    ensures var n: int := b; (256 * high + n) / 0x100 == high && (256 * high + n) % 0x100 == n
  {
  }

  lemma {:induction false} SwapOfFour(w: u32, b0: u8, b1: u8, b2: u8, b3: u8)
    requires var c0: int, c1: int, c2: int, c3: int := b0, b1, b2, b3; w == 256 * (256 * (256 * c0 + c1) + c2) + c3
    ensures SwapBytes(w) == WordOf([b0, b1, b2, b3])
  {
    var c0: int, c1: int, c2: int := b0, b1, b2;
    LastByte(256 * (256 * c0 + c1) + c2, b3);
    LastByte(256 * c0 + c1, b2);
    LastByte(c0, b1);
    assert w / 0x10000 == w / 0x100 / 0x100 && w / 0x1000000 == w / 0x100 / 0x100 / 0x100;
  }

  lemma {:induction false} SwapsBack(b: seq<u8>)
    requires |b| == 4
    ensures BigEndian(b) < TWO32 && SwapBytes(BigEndian(b)) == WordOf(b)
  {
    hide BigEndian, SwapBytes, WordOf;
    FourBigEndian(b);
    SwapOfFour(BigEndian(b), b[0], b[1], b[2], b[3]);
    assert b == [b[0], b[1], b[2], b[3]];
  }

  lemma {:induction false} FourBytesParse(b: seq<u8>)
    requires |b| == 4
    ensures ParseWord(HexBytes(b)) == Some(WordOf(b))
  {
    hide Digits, WordOf, SwapBytes, BigEndian;
    DigitsOfBytes(b);
    SwapsBack(b);
    HexBytesAt(b, 0);
    assert HexBytes(b)[0] == HexBytes(b)[0..2][0] == HexDigit(b[0] / 16);
    HexIsNoPlus(b[0] / 16);
  }

  lemma {:induction false} WordParses(w: u32)
    ensures ParseWord(HexBytes(WordBytes(w))) == Some(w)
  {
    hide ParseWord, HexBytes;
    FourBytesParse(WordBytes(w));
    WordRoundTrip(w);
  }

  /** The first `n` words of a register packet. */
  function ParseRegs(data: string, n: nat): Option<seq<u32>>
    requires 8 * n <= |data|
    decreases n
  {
    if n == 0 then Some([])
    else
      match (ParseRegs(data, n - 1), ParseWord(data[8 * n - 8..8 * n]))
      case (Some(rs), Some(w)) => Some(rs + [w])
      case _ => None
  }

  lemma {:induction false} RegsParse(regs: seq<u32>, n: nat)
    requires n <= |regs|
    ensures ParseRegs(RegsReply(regs), n) == Some(regs[..n])
    decreases n
  {
    hide ParseWord, RegsReply, HexBytes, WordBytes;
    if n > 0 {
      RegsParse(regs, n - 1);
      RegsReplyAt(regs, n - 1);
      WordParses(regs[n - 1]);
      assert 8 * (n - 1) == 8 * n - 8 && regs[..n - 1] + [regs[n - 1]] == regs[..n];
    }
  }

  /** The first `n` bytes of hexadecimal data. */
  function ParseBytes(data: string, n: nat): (r: Option<seq<u8>>)
    requires 2 * n <= |data|
    ensures r.Some? ==> |r.value| == n
    decreases n
  {
    if n == 0 then Some([])
    else
      match (ParseBytes(data, n - 1), ParseHex(data[2 * n - 2..2 * n], 0x100))
      case (Some(bs), Some(b)) => Some(bs + [b])
      case _ => None
  }

  lemma {:induction false} BytesParse(bs: seq<u8>, n: nat)
    requires n <= |bs|
    ensures ParseBytes(HexBytes(bs), n) == Some(bs[..n])
    decreases n
  {
    hide ParseHex, HexBytes, Hex2;
    if n > 0 {
      BytesParse(bs, n - 1);
      HexBytesAt(bs, n - 1);
      Hex2Parses(bs[n - 1]);
      assert 2 * (n - 1) == 2 * n - 2 && bs[..n - 1] + [bs[n - 1]] == bs[..n];
    }
  }

  lemma {:induction false} NoRegsYet(data: string)
    ensures ParseRegs(data, 0) == Some([])
  {
  }

  lemma {:induction false} OneRegMore(data: string, i: nat)
    requires 8 * i + 8 <= |data| && ParseRegs(data, i).Some?
    ensures ParseRegs(data, i + 1) ==
            match ParseWord(data[8 * i..8 * i + 8]) case None => None
              case Some(w) => Some(ParseRegs(data, i).value + [w])
  {
    hide ParseWord;
    assert 8 * (i + 1) - 8 == 8 * i;
  }

  lemma {:induction false} RegsStayFailed(data: string, n: nat, k: nat)
    requires n <= k && 8 * k <= |data| && ParseRegs(data, n).None?
    ensures ParseRegs(data, k).None?
    decreases k
  {
    hide ParseWord;
    if n < k { RegsStayFailed(data, n, k - 1); }
  }

  lemma {:induction false} BytesStayFailed(data: string, n: nat, k: nat)
    requires n <= k && 2 * k <= |data| && ParseBytes(data, n).None?
    ensures ParseBytes(data, k).None?
    decreases k
  {
    hide ParseHex;
    if n < k { BytesStayFailed(data, n, k - 1); }
  }

  /** The header of a memory packet. */
  function Region(addr: nat, length: nat): string { Hex(addr) + "," + Hex(length) }

  /** `split_once` */
  function SplitOnce(s: string, c: char): Option<(string, string)> {
    var i := Position(s, c);
    if i == |s| then None else Some((s[..i], s[i + 1..]))
  }

  function ParseRegion(s: string): Option<(nat, nat)> {
    match SplitOnce(s, ',')
    case None => None
    case Some((a, l)) =>
      match (ParseHex(a, TWO32), ParseHex(l, TWO32))
      case (Some(addr), Some(length)) => Some((addr, length))
      case _ => None
  }

  lemma {:induction false} RegionParses(addr: nat, length: nat)
    requires addr < TWO32 && length < TWO32
    ensures ParseRegion(Region(addr, length)) == Some((addr, length)) && ':' !in Region(addr, length)
  {
    hide Digits, Hex, ParseHex;
    HexParses(addr);
    HexParses(length);
    PositionIs(Hex(addr), ',', Hex(length));
    var s := Region(addr, length);
    assert s == Hex(addr) + [','] + Hex(length);
    assert s[..|Hex(addr)|] == Hex(addr) && s[|Hex(addr)| + 1..] == Hex(length);
    ParseOfHex(addr, TWO32);
    ParseOfHex(length, TWO32);
  }

  /** The address and the bytes of a memory write. */
  function ParseWrite(params: string): Option<(nat, seq<u8>)> {
    match SplitOnce(params, ':')
    case None => None
    case Some((header, data)) =>
      match ParseRegion(header)
      case None => None
      case Some((addr, length)) =>
        if |data| != 2 * length then None
        else match ParseBytes(data, length) case None => None case Some(bs) => Some((addr, bs))
  }

  function WriteParams(addr: nat, data: seq<u8>): string { Region(addr, |data|) + ":" + HexBytes(data) }

  lemma {:induction false} WritePacketParses(addr: nat, data: seq<u8>)
    requires addr < TWO32 && |data| < TWO32
    ensures ParseWrite(WriteParams(addr, data)) == Some((addr, data))
  {
    hide Region, ParseRegion, HexBytes;
    var r := Region(addr, |data|);
    RegionParses(addr, |data|);
    PositionIs(r, ':', HexBytes(data));
    var s := WriteParams(addr, data);
    assert s == r + [':'] + HexBytes(data) && s[..|r|] == r && s[|r| + 1..] == HexBytes(data);
    BytesParse(data, |data|);
    assert data[..|data|] == data;
  }

  // ---------------------------------------------------------------- documents in pieces

  /** The reply to a read of `length` bytes at `offset`: `l` when fewer than asked for were left, `m` otherwise. */
  function XferReply(doc: string, offset: nat, length: nat): string {
    if offset > |doc| then "E00"
    else
      var left := doc[offset..];
      var n := if length < |left| then length else |left|;
      (if n < length then "l" else "m") + left[..n]
  }

  /** What a client gets that asks for pieces of the given length until it is told that nothing is left. */
  function ReadAll(doc: string, offset: nat, length: nat): string
    requires offset <= |doc| && length > 0
    decreases |doc| - offset
  {
    var reply := XferReply(doc, offset, length);
    if reply[0] == 'l' then reply[1..] else reply[1..] + ReadAll(doc, offset + |reply| - 1, length)
  }

  lemma {:induction false} XferReplyIs(doc: string, offset: nat, length: nat)
    ensures var reply := XferReply(doc, offset, length);
            if offset > |doc| then reply == "E00"
            else if |doc| - offset < length then reply[0] == 'l' && reply[1..] == doc[offset..]
            else |reply| == 1 + length && reply[0] == 'm' && reply[1..] == doc[offset..offset + length]
  {
    if offset <= |doc| {
      assert doc[offset..][..|doc| - offset] == doc[offset..];
      if length <= |doc| - offset { assert doc[offset..][..length] == doc[offset..offset + length]; }
    }
  }

  /** Reading in pieces of any positive length ends and yields the whole document. */
  lemma {:induction false} PiecesMakeWhole(doc: string, offset: nat, length: nat)
    requires offset <= |doc| && length > 0
    ensures ReadAll(doc, offset, length) == doc[offset..]
    decreases |doc| - offset
  {
    hide XferReply;
    XferReplyIs(doc, offset, length);
    if |doc| - offset >= length {
      PiecesMakeWhole(doc, offset + length, length);
      assert doc[offset..] == doc[offset..offset + length] + doc[offset + length..];
    }
  }

  /** The reply to the n-th request of a client that goes on where the last piece ended. */
  function NthReply(doc: string, offset: nat, length: nat, n: nat): (r: string)
    requires offset <= |doc|
    ensures r != "" && (r[0] == 'l' || r[0] == 'm')
    decreases n
  {
    var reply := XferReply(doc, offset, length);
    if n == 0 then reply else NthReply(doc, offset + |reply| - 1, length, n - 1)
  }

  /** Some request is answered that nothing is left. */
  ghost predicate ReadingEnds(doc: string, offset: nat, length: nat)
    requires offset <= |doc|
  {
    exists n: nat :: NthReply(doc, offset, length, n)[0] == 'l'
  }

  /** A client is ever told that nothing is left if and only if it asks for something: a read of no bytes has no end. */
  lemma {:induction false} ReadingEndsIff(doc: string, offset: nat, length: nat)
    requires offset <= |doc|
    ensures ReadingEnds(doc, offset, length) <==> length > 0
    decreases |doc| - offset
  {
    if length == 0 {
      forall n: nat ensures NthReply(doc, offset, 0, n) == "m" { EmptyReadsSayMore(doc, offset, n); }
    } else {
      XferReplyIs(doc, offset, length);
      var reply := XferReply(doc, offset, length);
      if reply[0] == 'l' {
        assert NthReply(doc, offset, length, 0)[0] == 'l';
      } else {
        var next := offset + |reply| - 1;
        ReadingEndsIff(doc, next, length);
        var n: nat :| NthReply(doc, next, length, n)[0] == 'l';
        assert NthReply(doc, offset, length, n + 1)[0] == 'l';
      }
    }
  }

  lemma {:induction false} EmptyReadsSayMore(doc: string, offset: nat, n: nat)
    requires offset <= |doc|
    ensures NthReply(doc, offset, 0, n) == "m"
    decreases n
  {
    assert doc[offset..][..0] == "";
    if n > 0 { EmptyReadsSayMore(doc, offset, n - 1); }
  }

  // ---------------------------------------------------------------- the server

  datatype Reply = Sent(body: string) | Failed

  class GdbServer {
    var buffer: string               // what the buffered reader holds
    var incoming: seq<string>        // what the connection will deliver, read by read
    var regs: array<u32>
    var mem: array<u8>
    var nullSegmentSize: nat

    predicate Valid()
      reads this
    {
      regs.Length == 16 && IsAscii(buffer) && AllAscii(incoming)
    }

    /** `fill_buf`: reads from the connection only when nothing is buffered. */
    method FillBuf()
      requires Valid()
      modifies `buffer, `incoming
      ensures Valid()
      ensures if old(buffer) == "" && old(incoming) != [] then buffer == old(incoming)[0] &&
              incoming == old(incoming)[1..]
              else buffer == old(buffer) && incoming == old(incoming)
    {
      if buffer == "" && incoming != [] {
        buffer := incoming[0];
        incoming := incoming[1..];
      }
    }

    method Checksum(body: string) returns (sum: nat)
      requires IsAscii(body)
      ensures sum == Sum(body)
    {
      sum := 0;
      for k := 0 to |body|
        invariant sum == Sum(body[..k])
      {
        assert body[..k + 1][..k] == body[..k];
        sum := (sum + body[k] as nat) % 0x100;
      }
      assert body[..|body|] == body;
    }

    method ReadPacket() returns (r: Read)
      requires Valid()
      modifies `buffer, `incoming
      ensures var (b, rest) := Filled(old(buffer), old(incoming));
              r == ParsePacket(b) && incoming == rest && (!r.Garbage? ==> Valid() && buffer == r.buffer)
    {
      hide ParseHex, Sum;
      FillBuf();
      if buffer == "" { return Nothing(buffer); }
      if buffer[0] == '+' {
        buffer := buffer[1..];
        return Nothing(buffer);
      }
      if buffer[0] != '$' { return Garbage; }
      var end := Position(buffer, '#');
      if end == |buffer| { return if |buffer| == CAPACITY then Garbage else Nothing(buffer); }
      if |buffer| < end + 3 { return Nothing(buffer); }
      var body := buffer[1..end];
      var checksum1 := ParseHex(buffer[end + 1..end + 3], 0x100);
      if checksum1.None? { return Garbage; }
      var checksum2 := Checksum(body);
      if checksum1.value != checksum2 { return Garbage; }
      buffer := buffer[end + 3..];
      return Packet(body, buffer);
    }

    /** The debugger loop's calls of `read_packet`, up to a panic (src/gdb.rs:169-173). */
    method Poll(calls: nat) returns (rs: seq<Read>)
      requires Valid()
      modifies `buffer, `incoming
      ensures rs == Polled(old(buffer), old(incoming), calls)
    {
      hide ParsePacket;
      rs := [];
      var left := calls;
      while left > 0
        invariant Valid() && Polled(old(buffer), old(incoming), calls) == rs + Polled(buffer, incoming, left)
        decreases left
      {
        ghost var rest := Polled(buffer, incoming, left);
        var r := ReadPacket();
        assert rest == [r] + if r.Garbage? then [] else Polled(r.buffer, incoming, left - 1);
        assert rs + rest == rs + [r] + rest[1..];
        rs := rs + [r];
        if r.Garbage? { return rs; }
        left := left - 1;
      }
    }

    /**
     With part of a frame buffered, or arriving, its body is delivered at some call if and only if
     the part is all of it.
     */
    method PollForFrame(body: string, n: nat, calls: nat) returns (rs: seq<Read>)
      requires Valid() && IsAscii(body) && '#' !in body && 0 < n <= |Frame(body)| && calls > 0
      requires buffer == Frame(body)[..n] || (buffer == "" && incoming != [] && incoming[0] == Frame(body)[..n])
      modifies `buffer, `incoming
      ensures Delivers(rs, body) <==> n == |Frame(body)|
    {
      hide ParsePacket, Frame, Polled, Delivers;
      if buffer == "" {
        assert [Frame(body)[..n]] + incoming[1..] == incoming;
        ArrivingFrameDeliveredIff(body, n, incoming[1..], calls);
      } else {
        BufferedFrameDeliveredIff(body, n, incoming, calls);
      }
      rs := Poll(calls);
    }

    /** `g` */
    method ReadRegisters() returns (packet: string)
      ensures packet == RegsReply(regs[..])
    {
      hide HexBytes, WordBytes;
      packet := "";
      for i := 0 to regs.Length
        invariant packet == RegsReply(regs[..i])
      {
        assert regs[..i + 1][..i] == regs[..i];
        packet := packet + HexBytes(WordBytes(regs[i]));
      }
      assert regs[..regs.Length] == regs[..];
    }

    /** `G` */
    method WriteRegisters(data: string) returns (r: Reply)
      requires regs.Length == 16
      modifies regs
      ensures if |data| == 128 && ParseRegs(data, 16).Some? then r == Sent("OK") &&
              Some(regs[..]) == ParseRegs(data, 16)
              else r == Failed
    {
      hide ParseWord, ParseRegs;
      if |data| != regs.Length * 8 { return Failed; }
      NoRegsYet(data);
      for i := 0 to regs.Length
        invariant ParseRegs(data, i) == Some(regs[..i])
      {
        var word := ParseWord(data[8 * i..8 * i + 8]);
        OneRegMore(data, i);
        if word.None? {
          RegsStayFailed(data, i + 1, 16);
          return Failed;
        }
        regs[i] := word.value;
        assert regs[..i + 1] == regs[..i] + [word.value];
      }
      assert regs[..16] == regs[..];
      return Sent("OK");
    }

    /** What `g` replies with, fed back through `G` after the registers have changed to anything, puts them back. */
    method RestoreRegisters(changed: seq<u32>) returns (r: Reply)
      requires regs.Length == 16 && |changed| == 16
      modifies regs
      ensures r == Sent("OK") && regs[..] == old(regs[..])
    {
      hide ParseRegs, RegsReply;
      ghost var saved := regs[..];
      var packet := ReadRegisters();
      forall i | 0 <= i < 16 { regs[i] := changed[i]; }
      RegsParse(saved, 16);
      assert saved[..16] == saved;
      r := WriteRegisters(packet);
    }

    predicate Accessible(addr: nat, length: nat)
      reads this
    {
      nullSegmentSize <= addr && addr + length <= mem.Length
    }

    /** `m`, after its first letter. */
    method ReadMemory(params: string) returns (r: Reply)
      ensures match ParseRegion(params)
              case None => r == Failed
              case Some((addr, length)) =>
                r == Sent(if Accessible(addr, length) then HexBytes(mem[addr..addr + length]) else "E00")
    {
      hide ParseRegion, Hex2;
      var region := ParseRegion(params);
      if region.None? { return Failed; }
      var (addr, length) := region.value;
      if !Accessible(addr, length) { return Sent("E00"); }
      var packet := "";
      for i := 0 to length
        invariant packet == HexBytes(mem[addr..addr + i])
      {
        assert mem[addr..addr + i + 1][..i] == mem[addr..addr + i];
        packet := packet + Hex2(mem[addr + i]);
      }
      return Sent(packet);
    }

    /** `M`, after its first letter: the bytes given are stored and no others change. */
    method WriteMemory(params: string) returns (r: Reply)
      modifies mem
      ensures match ParseWrite(params)
              case None => r == Failed || (r == Sent("E00") && mem[..] == old(mem[..]))
              case Some((addr, bytes)) =>
                if Accessible(addr, |bytes|) then
                  r == Sent("OK") && mem[..] == old(mem[..addr]) + bytes + old(mem[addr + |bytes|..])
                else r == Sent("E00") && mem[..] == old(mem[..])
    {
      hide ParseRegion, SplitOnce, ParseHex;
      var parts := SplitOnce(params, ':');
      if parts.None? { return Failed; }
      var (header, data) := parts.value;
      var region := ParseRegion(header);
      if region.None? { return Failed; }
      var (addr, length) := region.value;
      if |data| != 2 * length { return Failed; }
      if !Accessible(addr, length) { return Sent("E00"); }
      assert mem[addr..addr + 0] == [];
      for i := 0 to length
        invariant mem[..addr] == old(mem[..addr]) && mem[addr + i..] == old(mem[addr + i..])
        invariant ParseBytes(data, i) == Some(mem[addr..addr + i])
      {
        var b := ParseHex(data[2 * i..2 * i + 2], 0x100);
        if b.None? {
          BytesStayFailed(data, i + 1, length);
          return Failed;
        }
        ghost var before := mem[addr..addr + i];
        mem[addr + i] := b.value;
        assert mem[addr..addr + i + 1] == before + [b.value];
        assert mem[addr + i + 1..] == old(mem[addr + i..])[1..];
      }
      assert mem[..] == mem[..addr] + mem[addr..addr + length] + mem[addr + length..];
      return Sent("OK");
    }

    /** Writing memory and reading it back gives the bytes written. */
    method WriteThenRead(addr: nat, data: seq<u8>) returns (r: Reply)
      requires addr < TWO32 && |data| < TWO32 && Accessible(addr, |data|)
      modifies mem
      ensures r == Sent(HexBytes(data))
    {
      hide ParseWrite, ParseRegion, WriteParams, Region, HexBytes;
      WritePacketParses(addr, data);
      RegionParses(addr, |data|);
      var w := WriteMemory(WriteParams(addr, data));
      ghost var all := mem[..];
      r := ReadMemory(Region(addr, |data|));
      assert mem[addr..addr + |data|] == all[addr..addr + |data|] == data;
    }
  }
}
