/** The initial stack of the main thread, built back to front (src/stack.rs:28-112). */
module StackImage {
  import opened Prelude

  type Bytes = seq<u8>

  const STACK_BASE: nat := TWO32
  const MAIN_THREAD_STACK_SIZE: nat := 1024 * 1024

  // ---------------------------------------------------------------- the data, growing downwards

  function Reverse(s: Bytes): (r: Bytes)
    ensures |r| == |s|
  {
    if s == [] then [] else Reverse(s[1..]) + [s[0]]
  }

  lemma {:induction false} ReverseAt(s: Bytes, k: nat)
    requires k < |s|
    ensures Reverse(s)[k] == s[|s| - 1 - k]
    decreases |s|
  {
    if k < |s| - 1 { ReverseAt(s[1..], k); }
  }

  /** Strings pushed one after another: each as its terminator and then its bytes from last to first. */
  function Data(strings: seq<Bytes>): Bytes
    decreases |strings|
  {
    if strings == [] then []
    else Data(strings[..|strings| - 1]) + [0] + Reverse(strings[|strings| - 1])
  }

  /** Where string `i` starts. */
  function PointerTo(strings: seq<Bytes>, i: nat): int
    requires i < |strings|
  {
    STACK_BASE - |Data(strings[..i + 1])|
  }

  function PointersTo(strings: seq<Bytes>, lo: nat, hi: nat): (ps: seq<int>)
    requires lo <= hi <= |strings|
    ensures |ps| == hi - lo
    ensures forall k :: 0 <= k < |ps| ==> ps[k] == PointerTo(strings, lo + k)
    decreases hi - lo
  {
    if lo == hi then [] else PointersTo(strings, lo, hi - 1) + [PointerTo(strings, hi - 1)]
  }

  /** The table the app's entry point reads; nothing separates the argv pointers from the envp pointers. */
  function Table(argv: seq<Bytes>, envp: seq<Bytes>, apple: seq<Bytes>): seq<int> {
    var all := argv + envp + apple;
    [|argv|] + PointersTo(all, 0, |argv| + |envp|) + [0] + PointersTo(all, |argv| + |envp|, |all|) + [0]
  }

  function Padding(n: nat): nat { if n % 4 != 0 then 4 - n % 4 else 0 }

  /** Bytes of a word, most significant first. */
  function BigEndian(w: int): (b: Bytes)
    requires 0 <= w < TWO32
    ensures |b| == 4
  {
    [w / 0x1000000, w / 0x10000 % 0x100, w / 0x100 % 0x100, w % 0x100]
  }

  predicate AreWords(ws: seq<int>) { forall k :: 0 <= k < |ws| ==> 0 <= ws[k] < TWO32 }

  /** The words' bytes as pushed: the last word first, each most significant byte first. */
  function Pushed(words: seq<int>): (b: Bytes)
    requires AreWords(words)
    ensures |b| == 4 * |words|
  {
    if words == [] then [] else Pushed(words[1..]) + BigEndian(words[0])
  }

  function Height(argv: seq<Bytes>, envp: seq<Bytes>, apple: seq<Bytes>): nat {
    var d := |Data(argv + envp + apple)|;
    d + Padding(d) + 4 * |Table(argv, envp, apple)|
  }

  // ---------------------------------------------------------------- what the image should be

  /** The little-endian word at offset `o`. */
  function WordAt(image: Bytes, o: nat): int
    requires o + 4 <= |image|
  {
    var b0: int, b1: int, b2: int, b3: int := image[o], image[o + 1], image[o + 2], image[o + 3];
    b0 + 0x100 * b1 + 0x10000 * b2 + 0x1000000 * b3
  }

  predicate StringAt(image: Bytes, o: int, s: Bytes) {
    0 <= o && o + |s| < |image| && image[o..o + |s|] == s && image[o + |s|] == 0
  }

  /**
   At `sp`, up to the end of the address space, lie the table and then the strings: each pointer is
   that of its own string, and no two strings overlap, nor any of them the table.
   */
  predicate IsImage(image: Bytes, sp: nat, argv: seq<Bytes>, envp: seq<Bytes>, apple: seq<Bytes>) {
    var all := argv + envp + apple;
    var table := Table(argv, envp, apple);
    && sp + |image| == STACK_BASE && sp % 4 == 0
    && 4 * |table| <= |image| && (forall k :: 0 <= k < |table| ==> WordAt(image, 4 * k) == table[k])
    && (forall i :: 0 <= i < |all| ==> StringAt(image, PointerTo(all, i) - sp, all[i]))
    && (forall i :: 0 <= i < |all| ==> sp + 4 * |table| <= PointerTo(all, i))
    && (forall i, j :: 0 <= i < j < |all| ==> PointerTo(all, j) + |all[j]| < PointerTo(all, i))
  }

  // ---------------------------------------------------------------- proofs

  lemma {:induction false} DataPrefix(strings: seq<Bytes>, i: nat)
    requires i <= |strings|
    ensures |Data(strings[..i])| <= |Data(strings)| && Data(strings)[..|Data(strings[..i])|] == Data(strings[..i])
    decreases |strings|
  {
    if i == |strings| {
      assert strings[..i] == strings;
    } else {
      var init := strings[..|strings| - 1];
      DataPrefix(init, i);
      assert init[..i] == strings[..i];
    }
  }

  lemma {:induction false} DataOneMore(strings: seq<Bytes>, i: nat)
    requires i < |strings|
    ensures Data(strings[..i + 1]) == Data(strings[..i]) + [0] + Reverse(strings[i])
  {
    assert strings[..i + 1][..i] == strings[..i];
  }

  /** The bytes of string `i` and its terminator, as they lie in the data. */
  lemma {:induction false} StringInData(strings: seq<Bytes>, i: nat)
    requires i < |strings|
    ensures var d, n := Data(strings), |Data(strings[..i + 1])|;
            |strings[i]| < n <= |d| && d[n - 1 - |strings[i]|..n] == [0] + Reverse(strings[i])
  {
    hide Reverse;
    DataPrefix(strings, i + 1);
    DataOneMore(strings, i);
    var d, e := Data(strings), Data(strings[..i + 1]);
    var n := |e|;
    assert d[n - 1 - |strings[i]|..n] == d[..n][n - 1 - |strings[i]|..];
  }

  lemma {:induction false} ReverseSliceAt(r: Bytes, a: nat, b: nat, k: nat)
    requires a <= b <= |r| && k < b - a
    ensures Reverse(r)[|r| - b + k] == Reverse(r[a..b])[k]
  {
    hide Reverse;
    var c := r[a..b];
    ReverseAt(r, |r| - b + k);
    ReverseAt(c, k);
    assert c[b - a - 1 - k] == r[b - 1 - k];
  }

  lemma {:induction false} ReverseSlice(r: Bytes, a: nat, b: nat)
    requires a <= b <= |r|
    ensures Reverse(r)[|r| - b..|r| - a] == Reverse(r[a..b])
  {
    hide Reverse;
    var v, y := Reverse(r), Reverse(r[a..b]);
    var o := |r| - b;
    forall k | 0 <= k < b - a ensures v[o..o + (b - a)][k] == y[k] { ReverseSliceAt(r, a, b, k); }
    assert v[o..o + (b - a)] == y;
  }

  lemma {:induction false} SliceOfAppend(data: Bytes, rest: Bytes, a: nat, b: nat)
    requires a <= b <= |data|
    ensures (data + rest)[a..b] == data[a..b]
  {
  }

  lemma {:induction false} ReverseOfPushed(s: Bytes)
    ensures Reverse([0] + Reverse(s)) == s + [0]
  {
    hide Reverse;
    var p := [0] + Reverse(s);
    var x, y := Reverse(p), s + [0];
    forall k | 0 <= k < |y| ensures x[k] == y[k] {
      ReverseAt(p, k);
      if k < |s| {
        ReverseAt(s, |s| - 1 - k);
        assert p[|s| - k] == Reverse(s)[|s| - 1 - k];
      }
    }
  }

  lemma {:induction false} PointersDescend(strings: seq<Bytes>, i: nat, j: nat)
    requires i < j < |strings|
    ensures PointerTo(strings, j) + |strings[j]| < PointerTo(strings, i)
  {
    DataOneMore(strings, j);
    DataPrefix(strings[..j], i + 1);
    assert strings[..j][..i + 1] == strings[..i + 1];
  }

  lemma {:induction false} BytesOfWord(w: int)
    requires 0 <= w < TWO32
    ensures var b := BigEndian(w); var b0: int, b1: int, b2: int, b3: int := b[3], b[2], b[1], b[0];
            b0 + 0x100 * b1 + 0x10000 * b2 + 0x1000000 * b3 == w
  {
    assert w / 0x100 / 0x100 == w / 0x10000 && w / 0x10000 / 0x100 == w / 0x1000000;
  }

  lemma {:induction false} PushedWord(words: seq<int>, k: nat)
    requires AreWords(words) && k < |words|
    ensures Pushed(words)[4 * (|words| - 1 - k)..4 * (|words| - k)] == BigEndian(words[k])
    decreases |words|
  {
    var rest := words[1..];
    if k > 0 {
      PushedWord(rest, k - 1);
      assert rest[k - 1] == words[k];
      var p := 4 * (|words| - 1 - k);
      assert Pushed(words)[p..p + 4] == Pushed(rest)[p..p + 4];
    }
  }

  lemma {:induction false} TableWord(data: Bytes, words: seq<int>, k: nat)
    requires AreWords(words) && k < |words|
    ensures WordAt(Reverse(data + Pushed(words)), 4 * k) == words[k]
  {
    var r := data + Pushed(words);
    PushedWord(words, k);
    BytesOfWord(words[k]);
    var p := 4 * (|words| - 1 - k);
    ReverseAt(r, 4 * k);
    ReverseAt(r, 4 * k + 1);
    ReverseAt(r, 4 * k + 2);
    ReverseAt(r, 4 * k + 3);
    var b := BigEndian(words[k]);
    assert b[0] == Pushed(words)[p] == r[|data| + p] && b[1] == Pushed(words)[p + 1] == r[|data| + p + 1];
    assert b[2] == Pushed(words)[p + 2] == r[|data| + p + 2] && b[3] == Pushed(words)[p + 3] == r[|data| + p + 3];
  }

  lemma {:induction false} StringInImage(data: Bytes, rest: Bytes, strings: seq<Bytes>, i: nat)
    requires i < |strings| && data == Data(strings)
    ensures var image := Reverse(data + rest);
            StringAt(image, PointerTo(strings, i) - (STACK_BASE - |image|), strings[i])
  {
    hide Reverse, Data, StringAt;
    StringInData(strings, i);
    PushedStringReadsBack(data, rest, |Data(strings[..i + 1])|, strings[i]);
  }

  lemma {:induction false} PushedStringReadsBack(data: Bytes, rest: Bytes, n: nat, s: Bytes)
    requires |s| < n <= |data| && data[n - 1 - |s|..n] == [0] + Reverse(s)
    ensures StringAt(Reverse(data + rest), |data| + |rest| - n, s)
  {
    hide Reverse, StringAt;
    var r := data + rest;
    var a, o := n - 1 - |s|, |r| - n;
    SliceOfAppend(data, rest, a, n);
    ReverseSlice(r, a, n);
    ReverseOfPushed(s);
    assert |r| - a == o + |s| + 1;
    SliceIsString(Reverse(r), o, s);
  }

  lemma {:induction false} SliceIsString(image: Bytes, o: nat, s: Bytes)
    requires o + |s| + 1 <= |image| && image[o..o + |s| + 1] == s + [0]
    ensures StringAt(image, o, s)
  {
    var x := image[o..o + |s| + 1];
    assert image[o..o + |s|] == x[..|s|] && x[..|s|] == s;
    assert image[o + |s|] == x[|s|];
  }

  lemma {:induction false} TableIsWords(argv: seq<Bytes>, envp: seq<Bytes>, apple: seq<Bytes>)
    requires |Data(argv + envp + apple)| <= STACK_BASE && |argv| < TWO32
    ensures AreWords(Table(argv, envp, apple))
  {
    var all := argv + envp + apple;
    forall i | 0 <= i < |all| ensures 0 <= PointerTo(all, i) < TWO32 {
      DataPrefix(all, i + 1);
      DataOneMore(all, i);
    }
  }

  /** Enough room for the data is enough for the count. */
  lemma {:induction false} DataAtLeast(strings: seq<Bytes>)
    ensures |Data(strings)| >= |strings|
    decreases |strings|
  {
    if strings != [] { DataAtLeast(strings[..|strings| - 1]); }
  }

  lemma {:induction false} ImageIsRight(data: Bytes, padding: Bytes, words: seq<int>, argv: seq<Bytes>,
          envp: seq<Bytes>, apple: seq<Bytes>)
    requires data == Data(argv + envp + apple) && words == Table(argv, envp, apple) && AreWords(words)
    requires |padding| == Padding(|data|) && |data| + |padding| + 4 * |words| <= STACK_BASE
    ensures var image := Reverse(data + padding + Pushed(words));
            IsImage(image, STACK_BASE - |image|, argv, envp, apple)
  {
    hide Table, Data, Pushed, Reverse, WordAt, StringAt;
    var all := argv + envp + apple;
    var image := Reverse(data + padding + Pushed(words));
    forall k | 0 <= k < |words| ensures WordAt(image, 4 * k) == words[k] { TableWord(data + padding, words, k); }
    forall i | 0 <= i < |all| ensures StringAt(image, PointerTo(all, i) - (STACK_BASE - |image|), all[i]) {
      StringInImage(data, padding + Pushed(words), all, i);
      assert data + (padding + Pushed(words)) == data + padding + Pushed(words);
    }
    forall i | 0 <= i < |all| ensures STACK_BASE - |image| + 4 * |words| <= PointerTo(all, i) {
      DataPrefix(all, i + 1);
    }
    forall i, j | 0 <= i < j < |all| ensures PointerTo(all, j) + |all[j]| < PointerTo(all, i) {
      PointersDescend(all, i, j);
    }
  }

  /** The word where C expects the null that ends argv is the first envp pointer, unless there is no environment. */
  lemma {:induction false} NoTerminatorAfterArgv(image: Bytes, sp: nat, argv: seq<Bytes>, envp: seq<Bytes>,
          apple: seq<Bytes>)
    requires IsImage(image, sp, argv, envp, apple)
    ensures 4 * (1 + |argv|) + 4 <= |image|
    ensures WordAt(image, 4 * (1 + |argv|)) == 0 <==> envp == []
  {
    var all := argv + envp + apple;
    var table := Table(argv, envp, apple);
    var k := 1 + |argv|;
    assert WordAt(image, 4 * k) == table[k];
    if envp != [] {
      assert table[k] == PointersTo(all, 0, |argv| + |envp|)[|argv|] == PointerTo(all, |argv|);
      assert sp + 4 * |table| <= PointerTo(all, |argv|);
    }
  }

  /** Word number `k` of the image is the address, in it, of string `s`. */
  predicate PointsTo(image: Bytes, sp: nat, k: nat, s: Bytes) {
    4 * k + 4 <= |image| && StringAt(image, WordAt(image, 4 * k) - sp, s)
  }

  /**
   What the app's entry point reads from the stack pointer up: the number of arguments, a pointer to
   each, one to each variable of the environment, a zero word, one to each of Apple's strings, and a
   zero word.
   */
  lemma {:induction false} EntryPointReads(image: Bytes, sp: nat, argv: seq<Bytes>, envp: seq<Bytes>,
          apple: seq<Bytes>)
    requires IsImage(image, sp, argv, envp, apple)
    ensures 4 * (3 + |argv| + |envp| + |apple|) <= |image|
    ensures WordAt(image, 0) == |argv|
    ensures forall i :: 0 <= i < |argv| ==> PointsTo(image, sp, 1 + i, argv[i])
    ensures forall i :: 0 <= i < |envp| ==> PointsTo(image, sp, 1 + |argv| + i, envp[i])
    ensures WordAt(image, 4 * (1 + |argv| + |envp|)) == 0
    ensures forall i :: 0 <= i < |apple| ==> PointsTo(image, sp, 2 + |argv| + |envp| + i, apple[i])
    ensures WordAt(image, 4 * (2 + |argv| + |envp| + |apple|)) == 0
  {
    hide IsImage, WordAt, StringAt, PointerTo, Table;
    FixedEntries(image, sp, argv, envp, apple);
    forall i | 0 <= i < |argv| ensures PointsTo(image, sp, 1 + i, argv[i]) {
      TableEntry(image, sp, argv, envp, apple, i, 1 + i);
    }
    forall i | 0 <= i < |envp| ensures PointsTo(image, sp, 1 + |argv| + i, envp[i]) {
      TableEntry(image, sp, argv, envp, apple, |argv| + i, 1 + |argv| + i);
    }
    forall i | 0 <= i < |apple| ensures PointsTo(image, sp, 2 + |argv| + |envp| + i, apple[i]) {
      TableEntry(image, sp, argv, envp, apple, |argv| + |envp| + i, 2 + |argv| + |envp| + i);
    }
  }

  lemma {:induction false} FixedEntries(image: Bytes, sp: nat, argv: seq<Bytes>, envp: seq<Bytes>, apple: seq<Bytes>)
    requires IsImage(image, sp, argv, envp, apple)
    ensures 4 * (3 + |argv| + |envp| + |apple|) <= |image|
    ensures WordAt(image, 0) == |argv|
    ensures WordAt(image, 4 * (1 + |argv| + |envp|)) == 0
    ensures WordAt(image, 4 * (2 + |argv| + |envp| + |apple|)) == 0
  {
    hide WordAt, StringAt, PointerTo;
    var table := Table(argv, envp, apple);
    assert WordAt(image, 4 * 0) == table[0];
    assert WordAt(image, 4 * (1 + |argv| + |envp|)) == table[1 + |argv| + |envp|];
    assert WordAt(image, 4 * (2 + |argv| + |envp| + |apple|)) == table[2 + |argv| + |envp| + |apple|];
  }

  /** Entry `k` of the table is the pointer to string `i`. */
  lemma {:induction false} TableEntry(image: Bytes, sp: nat, argv: seq<Bytes>, envp: seq<Bytes>, apple: seq<Bytes>,
          i: nat, k: nat)
    requires IsImage(image, sp, argv, envp, apple) && i < |argv + envp + apple|
    requires k == if i < |argv| + |envp| then 1 + i else 2 + i
    ensures PointsTo(image, sp, k, (argv + envp + apple)[i])
  {
    hide WordAt, StringAt, PointerTo;
    var all, table := argv + envp + apple, Table(argv, envp, apple);
    assert table[k] == PointerTo(all, i);
    assert WordAt(image, 4 * k) == table[k];
  }

  /** The bytes of all strings with their terminators. */
  function StringBytes(strings: seq<Bytes>): nat {
    if strings == [] then 0 else |strings[0]| + 1 + StringBytes(strings[1..])
  }

  lemma {:induction false} StringBytesOfBoth(a: seq<Bytes>, b: seq<Bytes>)
    ensures StringBytes(a + b) == StringBytes(a) + StringBytes(b)
    decreases |a|
  {
    if a == [] {
      assert a + b == b;
    } else {
      assert (a + b)[1..] == a[1..] + b;
      StringBytesOfBoth(a[1..], b);
    }
  }

  lemma {:induction false} DataLength(strings: seq<Bytes>)
    ensures |Data(strings)| == StringBytes(strings)
    decreases |strings|
  {
    if strings != [] {
      var init, last := strings[..|strings| - 1], strings[|strings| - 1];
      DataLength(init);
      StringBytesOfBoth(init, [last]);
      assert strings == init + [last] && StringBytes([last]) == |last| + 1 + StringBytes([]);
    }
  }

  /** How high the image is: the strings, rounded up to whole words, and a word for each entry of the table. */
  lemma {:induction false} HeightIs(argv: seq<Bytes>, envp: seq<Bytes>, apple: seq<Bytes>)
    ensures Height(argv, envp, apple) ==
            (StringBytes(argv) + StringBytes(envp) + StringBytes(apple) + 3) / 4 * 4
              + 4 * (3 + |argv| + |envp| + |apple|)
  {
    hide Data, StringBytes;
    DataLength(argv + envp + apple);
    StringBytesOfBoth(argv + envp, apple);
    StringBytesOfBoth(argv, envp);
  }

  // ---------------------------------------------------------------- building it

  /** The vectors that grow while the strings are pushed. */
  class Builder {
    var reversedData: Bytes
    var stringPtrs: seq<int>

    constructor ()
      ensures reversedData == [] && stringPtrs == []
    {
      reversedData, stringPtrs := [], [];
    }

    method PushString(s: Bytes)
      modifies this
      ensures reversedData == old(reversedData) + [0] + Reverse(s)
      ensures stringPtrs == old(stringPtrs) + [STACK_BASE - |reversedData|]
    {
      reversedData := reversedData + [0];
      var reversed := Reverse(s);
      for i := 0 to |s|
        invariant reversedData == old(reversedData) + [0] + reversed[..i] && stringPtrs == old(stringPtrs)
      {
        ReverseAt(s, i);
        reversedData := reversedData + [s[|s| - 1 - i]];
      }
      assert reversed[..|s|] == reversed;
      stringPtrs := stringPtrs + [STACK_BASE - |reversedData|];
    }

    /** Pushes strings `from` to `to` of `all`. */
    method PushStrings(all: seq<Bytes>, from: nat, to: nat)
      requires from <= to <= |all| && reversedData == Data(all[..from])
      modifies this
      ensures reversedData == Data(all[..to]) && stringPtrs == old(stringPtrs) + PointersTo(all, from, to)
    {
      for i := from to to
        invariant reversedData == Data(all[..i]) && stringPtrs == old(stringPtrs) + PointersTo(all, from, i)
      {
        DataOneMore(all, i);
        PushString(all[i]);
      }
    }

    /** Pushes the table's bytes, last word first. */
    method PushTable()
      requires AreWords(stringPtrs)
      modifies this`reversedData
      ensures reversedData == old(reversedData) + Pushed(stringPtrs)
    {
      var i := |stringPtrs|;
      assert stringPtrs[i..] == [];
      while i > 0
        invariant i <= |stringPtrs| && reversedData == old(reversedData) + Pushed(stringPtrs[i..])
      {
        i := i - 1;
        assert stringPtrs[i..][1..] == stringPtrs[i + 1..];
        reversedData := reversedData + BigEndian(stringPtrs[i]);
      }
      assert stringPtrs[0..] == stringPtrs;
    }
  }

  /** The strings and their pointers, before the table is pushed. */
  method PushAll(argv: seq<Bytes>, envp: seq<Bytes>, apple: seq<Bytes>) returns (b: Builder)
    ensures fresh(b) && b.reversedData == Data(argv + envp + apple) && b.stringPtrs == Table(argv, envp, apple)
  {
    var all := argv + envp + apple;
    b := new Builder();
    b.stringPtrs := [|argv|];
    assert all[..0] == [];
    b.PushStrings(all, 0, |argv| + |envp|);
    b.stringPtrs := b.stringPtrs + [0];
    b.PushStrings(all, |argv| + |envp|, |all|);
    b.stringPtrs := b.stringPtrs + [0];
    assert all[..|all|] == all;
  }

  method CopyReversed(reversed: Bytes) returns (region: array<u8>)
    ensures region[..] == Reverse(reversed)
  {
    var stackHeight := |reversed|;
    region := new u8[stackHeight];
    ghost var image := Reverse(reversed);
    for i := 0 to stackHeight
      invariant region[..i] == image[..i]
    {
      ReverseAt(reversed, i);
      region[i] := reversed[stackHeight - i - 1];
    }
    assert region[..] == image;
  }

  /**
   `prep_stack_for_start`: if everything fits into the main thread's stack, memory from the new stack
   pointer up is the image of the three lists; otherwise the source stops.
   */
  method PrepStackForStart(argv: seq<Bytes>, envp: seq<Bytes>, apple: seq<Bytes>)
          returns (ok: bool, sp: nat, region: array<u8>)
    ensures ok <==> Height(argv, envp, apple) < 0x10_0000
    ensures ok ==> IsImage(region[..], sp, argv, envp, apple)
  {
    hide Data, Table, IsImage, Reverse, Pushed;
    var b := PushAll(argv, envp, apple);
    ghost var data := b.reversedData;
    var misalignedBy := |b.reversedData| % 4;
    var padBy := if misalignedBy != 0 then 4 - misalignedBy else 0;
    var padding: Bytes := seq(padBy, _ => 0);
    b.reversedData := b.reversedData + padding;
    if |b.reversedData| + 4 * |b.stringPtrs| >= MAIN_THREAD_STACK_SIZE {
      region := new u8[0];
      return false, 0, region;
    }
    DataAtLeast(argv + envp + apple);
    TableIsWords(argv, envp, apple);
    b.PushTable();
    sp := STACK_BASE - |b.reversedData|;
    region := CopyReversed(b.reversedData);
    ImageIsRight(data, padding, b.stringPtrs, argv, envp, apple);
    return true, sp, region;
  }
}
