/** What holds of guest code throughout: each stub is unlinked, linked to a host function, or restored. */
module LinkerInvariant {
  import opened Prelude
  import opened Arm
  import opened Linker

  // ---------------------------------------------------------------- where things lie

  /**
   `s` is the k-th entry in the stub section of the i-th binary: its symbol, form and place, and how far the
   binary's lazy pointers are from that section.
   */
  predicate IsEntry(p: Program, i: nat, k: nat, s: Stub) {
    i < |p.bins| && p.bins[i].stubs.Some? &&
    var section := p.bins[i].stubs.value;
    && k < |section.symbols| && section.symbols[k] == Some(s.symbol)
    && s.form == section.form && s.addr == section.addr + k * EntrySize(section.form)
    && (match p.bins[i].lazyPointers
        case None => s.pic == 0
        case Some(pointers) => Add32(section.addr, s.pic) == pointers)
  }

  /** `s` is an entry for a symbol in the stub section of some binary. */
  ghost predicate IsStub(p: Program, s: Stub) { exists i: nat, k: nat :: IsEntry(p, i, k, s) }

  predicate Occupies(s: Stub, a: int) { s.addr <= a < s.addr + EntrySize(s.form) }

  /** The slot of a stub, from the data words the binary was loaded with. */
  function BaseSlot(loaded: Words, s: Stub): u32 {
    match s.form
    case Absolute => Load(loaded, Add32(s.addr, 8))
    case Direct => Add32(s.addr, s.pic % 0x1000 + 8)
    case Pic => Add32(s.addr, Load(loaded, Add32(s.addr, 12)) + 12)
  }

  predicate Aligned(a: int) { a % 4 == 0 }

  predicate SectionsApart(a: Section, b: Section) {
    a.addr + SizeOf(a) <= b.addr || b.addr + SizeOf(b) <= a.addr
  }

  /** `s` does not keep its pointer inside `t`, nor where `t` keeps its own. */
  predicate SlotApart(loaded: Words, s: Stub, t: Stub) {
    !Occupies(t, BaseSlot(loaded, s)) && (s != t ==> BaseSlot(loaded, s) != BaseSlot(loaded, t))
  }

  predicate SectionOk(s: Section) {
    Aligned(s.addr) && s.addr + SizeOf(s) <= TWO32
  }

  /** Stub sections do not overlap. */
  ghost predicate SectionsOk(bins: seq<Binary>) {
    && (forall i :: 0 <= i < |bins| && bins[i].stubs.Some? ==> SectionOk(bins[i].stubs.value))
    && (forall i, j :: 0 <= i < j < |bins| && bins[i].stubs.Some? && bins[j].stubs.Some? ==>
          SectionsApart(bins[i].stubs.value, bins[j].stubs.value))
  }

  /**
   The image as the binaries lay it out: sections and pointers do not overlap, and 4-byte stubs
   reach their pointers.
   */
  ghost predicate Layout(p: Program, loaded: Words) {
    && SectionsOk(p.bins)
    && (forall s: Stub, t: Stub :: IsStub(p, s) && IsStub(p, t) ==> SlotApart(loaded, s, t))
    && (forall s: Stub :: IsStub(p, s) ==> Reaches(loaded, s))
  }

  /** The slot is a word, and or-ing the distance into a 4-byte stub's instruction leaves it the instruction it is. */
  predicate Reaches(loaded: Words, s: Stub) {
    Aligned(BaseSlot(loaded, s)) && (s.form.Direct? ==> And(s.pic / 0x1000, STRAY_BITS) == 0)
  }

  predicate EntriesApart(s: Stub, t: Stub) {
    s.addr + EntrySize(s.form) <= t.addr || t.addr + EntrySize(t.form) <= s.addr
  }

  lemma Multiples(a: nat, b: nat, e: nat)
    requires e > 0 && a % e == 0 && b % e == 0 && a < b
    ensures a + e <= b
  {
    var k := b / e - a / e;
    assert b - a == k * e;
    AtLeastOnce(k, e);
  }

  lemma AtLeastOnce(k: int, e: nat)
    requires k * e > 0
    ensures k * e >= e
  {
  }

  lemma NextMultiple(q: nat, n: nat, e: nat)
    requires q * e < n * e
    ensures q * e + e <= n * e
  {
    assert n * e - q * e == (n - q) * e;
    AtLeastOnce(n - q, e);
  }

  lemma EntryFits(s: Section, offset: nat)
    requires offset < SizeOf(s) && offset % EntrySize(s.form) == 0
    ensures offset + EntrySize(s.form) <= SizeOf(s)
  {
    NextMultiple(offset / EntrySize(s.form), |s.symbols|, EntrySize(s.form));
  }

  lemma EntryIndex(k: nat, e: nat, n: nat)
    requires (e == 4 || e == 12 || e == 16) && k < n
    ensures (k * e) % e == 0 && k * e / e == k && k * e + e <= n * e
  {
    if e == 4 {
    } else if e == 12 {
    } else {
    }
  }

  lemma InRange(offset: nat, n: nat, e: nat)
    requires e > 0 && offset < n * e
    ensures offset / e < n
  {
    if offset / e >= n { NoLess(n, offset / e, e); }
  }

  lemma NoLess(a: nat, b: nat, e: nat)
    requires a <= b
    ensures a * e <= b * e
  {
  }

  /** The sizes of the entries of the three forms (src/dyld.rs:409-418). */
  lemma EntrySizes(f: Form)
    ensures EntrySize(f) == 4 || EntrySize(f) == 12 || EntrySize(f) == 16
    ensures EntrySize(Direct) == 4 && EntrySize(Absolute) == 12 && EntrySize(Pic) == 16
  {
  }

  /** With sections apart, no other binary's section contains an entry. */
  lemma {:induction false} FoundBin(p: Program, i: nat, pc: u32)
    requires SectionsOk(p.bins) && i < |p.bins| && InSection(p.bins[i], pc)
    ensures FindBin(p.bins, pc) == Some(p.bins[i])
  {
    hide FindBin;
    assert p.bins[i] in p.bins;
    var b := FindBin(p.bins, pc).value;
    var j :| 0 <= j < |p.bins| && p.bins[j] == b;
    BinsApart(p, i, j, pc);
  }

  lemma BinsApart(p: Program, i: nat, j: nat, pc: u32)
    requires SectionsOk(p.bins) && i < |p.bins| && j < |p.bins| && InSection(p.bins[i], pc) && InSection(p.bins[j], pc)
    ensures i == j
  {
  }

  lemma EntryInSection(p: Program, i: nat, k: nat, s: Stub)
    requires IsEntry(p, i, k, s)
    ensures var b := p.bins[i];
            && InSection(b, s.addr) && s.addr + EntrySize(s.form) <= b.stubs.value.addr + SizeOf(b.stubs.value)
            && (s.addr - b.stubs.value.addr) % EntrySize(s.form) == 0
            && (s.addr - b.stubs.value.addr) / EntrySize(s.form) == k
            && s.pic == PicOffset(b)
  {
    EntrySizes(s.form);
    EntryIndex(k, EntrySize(s.form), |p.bins[i].stubs.value.symbols|);
  }

  /**
   The dynamic linker finds every entry of every section: at the address of the k-th one it finds the
   k-th symbol, whichever binary it is in.
   */
  lemma {:induction false} EntryIsFound(p: Program, i: nat, k: nat, s: Stub)
    requires SectionsOk(p.bins) && IsEntry(p, i, k, s)
    ensures Locate(p.bins, s.addr) == At(s)
  {
    hide FindBin, SectionsOk, PicOffset, EntrySize;
    EntryInSection(p, i, k, s);
    FoundBin(p, i, s.addr);
    EntrySizes(s.form);
  }

  lemma {:induction false} StubIsFound(p: Program, s: Stub)
    requires SectionsOk(p.bins) && IsStub(p, s)
    ensures Locate(p.bins, s.addr) == At(s)
  {
    hide IsEntry, Locate, SectionsOk;
    var i: nat, k: nat :| IsEntry(p, i, k, s);
    EntryIsFound(p, i, k, s);
  }

  /** And it finds nothing else: what it finds at an address is an entry at that address. */
  lemma {:induction false} FoundIsEntry(p: Program, pc: u32)
    requires Locate(p.bins, pc).At?
    ensures Locate(p.bins, pc).stub.addr == pc && IsStub(p, Locate(p.bins, pc).stub)
  {
    hide FindBin, EntrySize;
    var b := FindBin(p.bins, pc).value;
    var i :| 0 <= i < |p.bins| && p.bins[i] == b;
    var section := b.stubs.value;
    EntrySizes(section.form);
    OffsetIndex(pc - section.addr, EntrySize(section.form), |section.symbols|);
    assert IsEntry(p, i, (pc - section.addr) / EntrySize(section.form), Locate(p.bins, pc).stub);
  }

  lemma OffsetIndex(offset: nat, e: nat, n: nat)
    requires (e == 4 || e == 12 || e == 16) && offset % e == 0 && offset < n * e
    ensures offset / e < n && offset / e * e == offset
  {
    if e == 4 {
    } else if e == 12 {
    } else {
    }
  }

  /** A stub lies inside the section of the binary that is found for it. */
  lemma StubInSection(p: Program, s: Stub)
    requires SectionsOk(p.bins) && IsStub(p, s)
    ensures var b := FindBin(p.bins, s.addr);
            && b.Some? && b.value in p.bins && InSection(b.value, s.addr)
            && b.value.stubs.value.form == s.form
            && s.addr + EntrySize(s.form) <= b.value.stubs.value.addr + SizeOf(b.value.stubs.value)
            && (s.addr - b.value.stubs.value.addr) % EntrySize(s.form) == 0
  {
    hide SectionsOk;
    StubIsFound(p, s);
    var b := FindBin(p.bins, s.addr).value;
    EntryFits(b.stubs.value, s.addr - b.stubs.value.addr);
  }

  lemma {:induction false} FirstIsUnique(bins: seq<Binary>, a: u32, b: u32)
    requires FindBin(bins, a).Some? && FindBin(bins, b).Some?
    requires forall i, j :: 0 <= i < j < |bins| && bins[i].stubs.Some? && bins[j].stubs.Some? ==>
               SectionsApart(bins[i].stubs.value, bins[j].stubs.value)
    ensures FindBin(bins, a) == FindBin(bins, b) ||
            SectionsApart(FindBin(bins, a).value.stubs.value, FindBin(bins, b).value.stubs.value)
  {
    if InSection(bins[0], a) && InSection(bins[0], b) {
    } else if !InSection(bins[0], a) && !InSection(bins[0], b) {
      FirstIsUnique(bins[1..], a, b);
    } else {
      var other := FindBin(bins[1..], if InSection(bins[0], a) then b else a).value;
      var j :| 0 <= j < |bins[1..]| && bins[1..][j] == other;
      assert bins[j + 1] == other;
    }
  }

  lemma SectionStubsApart(base: nat, e: nat, a: nat, b: nat)
    requires base <= a && base <= b && e > 0 && (a - base) % e == 0 && (b - base) % e == 0
    ensures a == b || a + e <= b || b + e <= a
  {
    if a < b { Multiples(a - base, b - base, e); }
    if b < a { Multiples(b - base, a - base, e); }
  }

  lemma AlignedSum(base: nat, a: nat, words: nat)
    requires Aligned(base) && a == base + 4 * words
    ensures Aligned(a)
  {
    assert a == 4 * (base / 4 + words);
  }

  lemma AlignedEntry(base: nat, f: Form, a: nat)
    requires base <= a && Aligned(base) && (a - base) % EntrySize(f) == 0
    ensures Aligned(a)
  {
    match f
    case Direct => AlignedSum(base, a, (a - base) / 4);
    case Absolute => AlignedSum(base, a, 3 * ((a - base) / 12));
    case Pic => AlignedSum(base, a, 4 * ((a - base) / 16));
  }

  lemma OneStubPerAddress(p: Program, s: Stub, t: Stub)
    requires SectionsOk(p.bins) && IsStub(p, s) && IsStub(p, t) && s.addr == t.addr
    ensures s == t
  {
    StubIsFound(p, s);
    StubIsFound(p, t);
  }

  lemma StubsApart(p: Program, loaded: Words, s: Stub, t: Stub)
    requires Layout(p, loaded) && IsStub(p, s) && IsStub(p, t)
    ensures s == t || EntriesApart(s, t)
    ensures s.addr + EntrySize(s.form) <= TWO32 && Aligned(s.addr)
  {
    hide IsStub, FindBin, SlotApart, Reaches, EntrySize, SizeOf, Aligned;
    StubInSection(p, s);
    StubInSection(p, t);
    FirstIsUnique(p.bins, s.addr, t.addr);
    var b := FindBin(p.bins, s.addr).value;
    var i :| 0 <= i < |p.bins| && p.bins[i] == b;
    assert SectionOk(b.stubs.value);
    AlignedEntry(b.stubs.value.addr, s.form, s.addr);
    assert EntrySize(s.form) > 0 by { EntrySizes(s.form); }
    if s.addr == t.addr {
      OneStubPerAddress(p, s, t);
    } else if FindBin(p.bins, s.addr) == FindBin(p.bins, t.addr) {
      SectionStubsApart(b.stubs.value.addr, EntrySize(s.form), s.addr, t.addr);
    }
  }

  // ---------------------------------------------------------------- the states of a stub

  lemma LazyCodeStarts(f: Form)
    ensures |LazyInstructions(f)| > 0
  {
  }

  function LinkedInstructions(f: Form, idx: nat): (ws: seq<u32>)
    requires SvcFor(idx, f.Direct?) < 0x1000000
    ensures |ws| == |LazyInstructions(f)|
  {
    LazyCodeStarts(f);
    LazyInstructions(f)[0 := SVC_BASE + SvcFor(idx, f.Direct?)]
  }

  /** Function number `idx` is `symbol`, and its SVC number is usable with and without the flag. */
  predicate Names(l: Linking, idx: nat, symbol: string) {
    idx < |l.linked| && l.linked[idx] == symbol && idx + SVC_LINKED_FUNCTIONS_BASE < RET_FLAG
  }

  predicate Unlinked(l: Linking, s: Stub) { HoldsAt(l.mem, s.addr, LazyInstructions(s.form)) }

  predicate LinkedTo(l: Linking, s: Stub, idx: nat) {
    Names(l, idx, s.symbol) && HoldsAt(l.mem, s.addr, LinkedInstructions(s.form, idx))
  }

  ghost predicate HostLinked(p: Program, l: Linking, s: Stub) {
    s.symbol in p.hosts && exists idx: nat :: LinkedTo(l, s, idx)
  }

  /** The i-th binary exports `symbol` at `address`, and none before it exports it at all. */
  predicate FirstExports(bins: seq<Binary>, symbol: string, i: nat, address: u32) {
    && i < |bins| && symbol in bins[i].exports && bins[i].exports[symbol] == address
    && forall j :: 0 <= j < i ==> symbol !in bins[j].exports
  }

  ghost predicate ExportedAt(bins: seq<Binary>, symbol: string, address: u32) {
    exists i: nat :: FirstExports(bins, symbol, i, address)
  }

  /** The search through the binaries finds the address of the first export, if there is one. */
  lemma {:induction false} FirstExportIs(bins: seq<Binary>, symbol: string)
    ensures match FirstExport(bins, symbol)
            case None => forall i :: 0 <= i < |bins| ==> symbol !in bins[i].exports
            case Some(address) => ExportedAt(bins, symbol, address)
  {
    if bins == [] {
    } else if symbol in bins[0].exports {
      assert FirstExports(bins, symbol, 0, bins[0].exports[symbol]);
    } else {
      FirstExportIs(bins[1..], symbol);
      var r := FirstExport(bins[1..], symbol);
      if r.Some? {
        var i: nat :| FirstExports(bins[1..], symbol, i, r.value);
        assert FirstExports(bins, symbol, i + 1, r.value);
      } else {
        forall i | 0 <= i < |bins| ensures symbol !in bins[i].exports {
          if i > 0 { assert bins[1..][i - 1] == bins[i]; }
        }
      }
    }
  }

  lemma NotExported(p: Program, symbol: string)
    requires !Resolvable(p, symbol)
    ensures FirstExport(p.bins, symbol).None?
  {
    FirstExportIs(p.bins, symbol);
  }

  /** The address a stub for `symbol` should jump to. */
  ghost predicate RightAddress(p: Program, l: Linking, symbol: string, address: u32) {
    if symbol in l.nonLazy then address == l.nonLazy[symbol]
    else symbol !in p.hosts && ExportedAt(p.bins, symbol, address)
  }

  ghost predicate Restored(p: Program, loaded: Words, l: Linking, s: Stub) {
    HoldsAt(l.mem, s.addr, RestoredInstructions(s)) && RightAddress(p, l, s.symbol, Load(l.mem, BaseSlot(loaded, s)))
  }

  /** The data words behind a stub's code are as loaded. */
  predicate DataKept(loaded: Words, mem: Words, s: Stub) {
    && (s.form.Absolute? ==> Load(mem, Add32(s.addr, 8)) == Load(loaded, Add32(s.addr, 8)))
    && (s.form.Pic? ==> Load(mem, Add32(s.addr, 12)) == Load(loaded, Add32(s.addr, 12)))
  }

  ghost predicate StubOk(p: Program, loaded: Words, l: Linking, s: Stub) {
    DataKept(loaded, l.mem, s) && (Unlinked(l, s) || HostLinked(p, l, s) || Restored(p, loaded, l, s))
  }

  // ---------------------------------------------------------------- guest functions made by the linker

  predicate RoutineCalls(l: Linking, base: u32, idx: nat, symbol: string) {
    Names(l, idx, symbol) && HoldsAt(l.mem, base, [SVC_BASE + SvcFor(idx, false), RET])
  }

  /** The eight bytes at `base` lie apart from `s` and its pointer. */
  predicate ApartFromStub(loaded: Words, base: u32, s: Stub) {
    && (base + 8 <= s.addr || s.addr + EntrySize(s.form) <= base)
    && !(base <= BaseSlot(loaded, s) < base + 8)
  }

  /** What the allocator owes: eight aligned bytes apart from everything the linker keeps. */
  ghost predicate FreshRoutine(p: Program, loaded: Words, l: Linking, base: u32) {
    && Aligned(base) && base + 8 <= TWO32
    && (forall s: Stub :: IsStub(p, s) ==> ApartFromStub(loaded, base, s))
    && (forall b :: b in l.routines ==> b + 8 <= base || base + 8 <= b)
  }

  ghost predicate RoutineOk(p: Program, loaded: Words, l: Linking, base: u32)
    requires base in l.routines
  {
    && Aligned(base) && base + 8 <= TWO32
    && (forall s: Stub :: IsStub(p, s) ==> ApartFromStub(loaded, base, s))
    && exists idx: nat :: RoutineCalls(l, base, idx, l.routines[base])
  }

  ghost predicate RoutinesOk(p: Program, loaded: Words, l: Linking) {
    && (forall b :: b in l.routines ==> RoutineOk(p, loaded, l, b))
    && (forall b, c :: b in l.routines && c in l.routines && b != c ==> b + 8 <= c || c + 8 <= b)
    && (forall y :: y in l.nonLazy ==> y in p.hosts && l.nonLazy[y] in l.routines && l.routines[l.nonLazy[y]] == y)
  }

  ghost predicate Inv(p: Program, loaded: Words, l: Linking) {
    && Layout(p, loaded)
    && (forall s: Stub :: IsStub(p, s) ==> StubOk(p, loaded, l, s))
    && RoutinesOk(p, loaded, l)
  }

  // ---------------------------------------------------------------- storing instructions

  /** Storing words puts them there and changes nothing else. */
  lemma {:induction false} StoreAllIs(mem: Words, a: u32, ws: seq<u32>)
    requires a + 4 * |ws| <= TWO32
    ensures HoldsAt(StoreAll(mem, a, ws), a, ws)
    ensures forall x: u32 :: !(a <= x < a + 4 * |ws|) ==> Load(StoreAll(mem, a, ws), x) == Load(mem, x)
    decreases |ws|
  {
    if ws != [] {
      var init := ws[..|ws| - 1];
      StoreAllIs(mem, a, init);
      var m := StoreAll(mem, a, init);
      forall j | 0 <= j < |ws| ensures Load(StoreAll(mem, a, ws), Add32(a, 4 * j)) == ws[j] {
        if j < |init| { assert Load(m, Add32(a, 4 * j)) == init[j]; }
      }
    }
  }

  /** Nothing a stub consists of has changed: neither its bytes nor its pointer. */
  predicate SameStub(loaded: Words, a: Words, b: Words, s: Stub) {
    && (forall x: u32 :: Occupies(s, x) ==> Load(a, x) == Load(b, x))
    && Load(a, BaseSlot(loaded, s)) == Load(b, BaseSlot(loaded, s))
  }

  /**
   The table of linked functions only grows, and so does the table of proc addresses, if at all by
   unlinked symbols.
   */
  predicate Grows(a: Linking, b: Linking) {
    && a.linked <= b.linked
    && (forall y :: y in a.nonLazy ==> y in b.nonLazy && b.nonLazy[y] == a.nonLazy[y])
  }

  lemma SameHolds(a: Words, b: Words, s: Stub, ws: seq<u32>)
    requires forall x: u32 :: Occupies(s, x) ==> Load(a, x) == Load(b, x)
    requires 4 * |ws| <= EntrySize(s.form) && s.addr + EntrySize(s.form) <= TWO32
    ensures HoldsAt(a, s.addr, ws) <==> HoldsAt(b, s.addr, ws)
  {
    forall j | 0 <= j < |ws| ensures Load(a, Add32(s.addr, 4 * j)) == Load(b, Add32(s.addr, 4 * j)) {
      assert Occupies(s, Add32(s.addr, 4 * j));
    }
  }

  lemma CodeFits(s: Stub)
    ensures 4 * |LazyInstructions(s.form)| <= EntrySize(s.form) && 4 * |RestoredInstructions(s)| <= EntrySize(s.form)
    ensures s.form.Absolute? ==> EntrySize(s.form) == 12
    ensures s.form.Pic? ==> EntrySize(s.form) == 16
  {
  }

  /** A stub that is not touched stays as it is. */
  lemma UntouchedStub(p: Program, loaded: Words, a: Linking, b: Linking, s: Stub)
    requires StubOk(p, loaded, a, s) && SameStub(loaded, a.mem, b.mem, s) && Grows(a, b)
    requires forall y :: y in b.nonLazy ==> y in p.hosts
    requires s.addr + EntrySize(s.form) <= TWO32
    ensures StubOk(p, loaded, b, s)
  {
    hide HoldsAt, RestoredInstructions, LazyInstructions, ExportedAt, EntrySize;
    CodeFits(s);
    if s.form.Absolute? { assert Occupies(s, Add32(s.addr, 8)); }
    if s.form.Pic? { assert Occupies(s, Add32(s.addr, 12)); }
    SameHolds(a.mem, b.mem, s, LazyInstructions(s.form));
    SameHolds(a.mem, b.mem, s, RestoredInstructions(s));
    if HostLinked(p, a, s) {
      var idx: nat :| LinkedTo(a, s, idx);
      SameHolds(a.mem, b.mem, s, LinkedInstructions(s.form, idx));
      assert LinkedTo(b, s, idx);
    }
  }

  lemma UntouchedRoutine(p: Program, loaded: Words, a: Linking, b: Linking, base: u32)
    requires base in a.routines && base in b.routines && b.routines[base] == a.routines[base] &&
             RoutineOk(p, loaded, a, base)
    requires a.linked <= b.linked
    requires forall x: u32 :: base <= x < base + 8 ==> Load(a.mem, x) == Load(b.mem, x)
    ensures RoutineOk(p, loaded, b, base)
  {
    var idx: nat :| RoutineCalls(a, base, idx, a.routines[base]);
    var ws := [SVC_BASE + SvcFor(idx, false), RET];
    forall j | 0 <= j < 2 ensures Load(b.mem, Add32(base, 4 * j)) == ws[j] {
      assert Load(a.mem, Add32(base, 4 * j)) == ws[j];
    }
    assert RoutineCalls(b, base, idx, b.routines[base]);
  }

  // ---------------------------------------------------------------- every operation keeps the invariant

  /** At most `s`'s own bytes and its pointer differ. */
  ghost predicate OnlyStubChanged(loaded: Words, a: Words, b: Words, s: Stub) {
    forall x: u32 :: !Occupies(s, x) && x != BaseSlot(loaded, s) ==> Load(a, x) == Load(b, x)
  }

  lemma OthersUntouched(p: Program, loaded: Words, a: Linking, b: Linking, s: Stub, t: Stub)
    requires Inv(p, loaded, a) && IsStub(p, s) && IsStub(p, t) && s != t
    requires OnlyStubChanged(loaded, a.mem, b.mem, s) && Grows(a, b) && b.nonLazy == a.nonLazy
    ensures StubOk(p, loaded, b, t)
  {
    hide IsStub, EntrySize, StubOk, BaseSlot;
    StubsApart(p, loaded, s, t);
    StubsApart(p, loaded, t, s);
    assert SlotApart(loaded, s, t) && SlotApart(loaded, t, s);
    assert SameStub(loaded, a.mem, b.mem, t);
    assert StubOk(p, loaded, a, t);
    UntouchedStub(p, loaded, a, b, t);
  }

  lemma RoutinesUntouched(p: Program, loaded: Words, a: Linking, b: Linking, s: Stub)
    requires Inv(p, loaded, a) && IsStub(p, s) && OnlyStubChanged(loaded, a.mem, b.mem, s)
    requires a.linked <= b.linked && b.nonLazy == a.nonLazy && b.routines == a.routines
    ensures RoutinesOk(p, loaded, b)
  {
    hide IsStub, Names, HoldsAt;
    forall base | base in b.routines ensures RoutineOk(p, loaded, b, base) {
      assert RoutineOk(p, loaded, a, base) && ApartFromStub(loaded, base, s);
      UntouchedRoutine(p, loaded, a, b, base);
    }
  }

  lemma ChangingOneStub(p: Program, loaded: Words, a: Linking, b: Linking, s: Stub)
    requires Inv(p, loaded, a) && IsStub(p, s) && OnlyStubChanged(loaded, a.mem, b.mem, s)
    requires a.linked <= b.linked && b.nonLazy == a.nonLazy && b.routines == a.routines
    requires StubOk(p, loaded, b, s)
    ensures Inv(p, loaded, b)
  {
    hide IsStub, StubOk, OnlyStubChanged, RoutinesOk;
    forall t: Stub | IsStub(p, t) ensures StubOk(p, loaded, b, t) {
      if t != s { OthersUntouched(p, loaded, a, b, s, t); }
    }
    RoutinesUntouched(p, loaded, a, b, s);
  }

  /** The slot the linker computes after restoring the code is the one the image was laid out with. */
  lemma RestoringFindsTheSlot(loaded: Words, mem: Words, s: Stub)
    requires s.addr + EntrySize(s.form) <= TWO32 && DataKept(loaded, mem, s)
    ensures SlotOf(StoreAll(mem, s.addr, RestoredInstructions(s)), s) == BaseSlot(loaded, s)
  {
    hide Or, And, Decode, StoreAll;
    OffsetIntoInstruction(s.pic);
    var ws := RestoredInstructions(s);
    StoreAllIs(mem, s.addr, ws);
    var m := StoreAll(mem, s.addr, ws);
    if s.form.Direct? { assert Load(m, Add32(s.addr, 4 * 0)) == ws[0]; }
  }

  /**
   Relinking a stub to an address: it puts back the code of the binary, writes the address where that
   code loads it from, and changes nothing else.
   */
  lemma RestoringKeeps(p: Program, loaded: Words, l: Linking, s: Stub, address: u32)
    requires Inv(p, loaded, l) && IsStub(p, s) && RightAddress(p, l, s.symbol, address)
    ensures var l1 := LinkByRestoring(l, s, address);
            && Inv(p, loaded, l1) && Restored(p, loaded, l1, s)
            && OnlyStubChanged(loaded, l.mem, l1.mem, s)
            && Load(l1.mem, BaseSlot(loaded, s)) == address
            && l1.linked == l.linked && l1.nonLazy == l.nonLazy && l1.routines == l.routines
  {
    hide IsStub, ExportedAt, Layout, RoutinesOk;
    var l1 := LinkByRestoring(l, s, address);
    assert StubOk(p, loaded, l, s);
    StubsApart(p, loaded, s, s);
    CodeFits(s);
    RestoringFindsTheSlot(loaded, l.mem, s);
    OwnSlotApart(p, loaded, s);
    var ws := RestoredInstructions(s);
    StoreAllIs(l.mem, s.addr, ws);
    var m := StoreAll(l.mem, s.addr, ws);
    SameHolds(m, l1.mem, s, ws);
    assert OnlyStubChanged(loaded, l.mem, l1.mem, s);
    DataStays(loaded, l.mem, l1.mem, s, 4 * |ws|);
    ChangingOneStub(p, loaded, l, l1, s);
  }

  lemma OwnSlotApart(p: Program, loaded: Words, s: Stub)
    requires Layout(p, loaded) && IsStub(p, s)
    ensures !Occupies(s, BaseSlot(loaded, s))
  {
    hide IsStub;
    assert SlotApart(loaded, s, s);
  }

  /** The data words lie behind the code. */
  lemma DataStays(loaded: Words, a: Words, b: Words, s: Stub, size: nat)
    requires DataKept(loaded, a, s) && s.addr + EntrySize(s.form) <= TWO32 && !Occupies(s, BaseSlot(loaded, s))
    requires size <= (match s.form case Direct => 4 case Absolute => 8 case Pic => 12)
    requires forall x: u32 :: Occupies(s, x) && s.addr + size <= x ==> Load(a, x) == Load(b, x)
    ensures DataKept(loaded, b, s)
  {
    if s.form.Absolute? { assert Occupies(s, Add32(s.addr, 8)); }
    if s.form.Pic? { assert Occupies(s, Add32(s.addr, 12)); }
  }

  lemma OneWordChanged(loaded: Words, mem: Words, s: Stub, w: u32)
    ensures OnlyStubChanged(loaded, mem, mem[s.addr := w], s)
  {
    EntrySizes(s.form);
  }

  lemma HostLinkingKeeps(p: Program, loaded: Words, l: Linking, s: Stub)
    requires Inv(p, loaded, l) && IsStub(p, s) && Unlinked(l, s) && s.symbol in p.hosts
    requires |l.linked| + SVC_LINKED_FUNCTIONS_BASE < RET_FLAG
    ensures var l1 := Store(l.(linked := l.linked + [s.symbol]), s.addr, SVC_BASE + SvcFor(|l.linked|, s.form.Direct?));
            && Inv(p, loaded, l1) && LinkedTo(l1, s, |l.linked|) && OnlyStubChanged(loaded, l.mem, l1.mem, s)
            && (!s.form.Direct? ==> Load(l1.mem, Add32(s.addr, 4)) == RET)
  {
    hide IsStub, Layout, RoutinesOk, OnlyStubChanged, ExportedAt;
    var idx := |l.linked|;
    var l1 := Store(l.(linked := l.linked + [s.symbol]), s.addr, SVC_BASE + SvcFor(idx, s.form.Direct?));
    assert StubOk(p, loaded, l, s);
    StubsApart(p, loaded, s, s);
    OwnSlotApart(p, loaded, s);
    var lazy, ws := LazyInstructions(s.form), LinkedInstructions(s.form, idx);
    forall j | 0 <= j < |ws| ensures Load(l1.mem, Add32(s.addr, 4 * j)) == ws[j] {
      assert Load(l.mem, Add32(s.addr, 4 * j)) == lazy[j];
    }
    assert LinkedTo(l1, s, idx);
    DataStays(loaded, l.mem, l1.mem, s, 4);
    if !s.form.Direct? { assert Load(l1.mem, Add32(s.addr, 4 * 1)) == ws[1]; }
    OneWordChanged(loaded, l.mem, s, SVC_BASE + SvcFor(idx, s.form.Direct?));
    ChangingOneStub(p, loaded, l, l1, s);
  }

  lemma LayoutOf(p: Program, loaded: Words, l: Linking)
    requires Inv(p, loaded, l)
    ensures SectionsOk(p.bins)
  {
    hide IsStub, RoutinesOk, StubOk;
  }

  /** The symbol is known to a host library or exported by a binary. */
  ghost predicate Resolvable(p: Program, symbol: string) {
    symbol in p.hosts || exists i :: 0 <= i < |p.bins| && symbol in p.bins[i].exports
  }

  /**
   The first call through a stub: the stub ends up linked to its host function, which is to be called
   now, or restored and pointing at the right address.
   */
  lemma LazyLinkKeeps(p: Program, loaded: Words, l: Linking, s: Stub)
    requires Inv(p, loaded, l) && IsStub(p, s) && Unlinked(l, s) && Resolvable(p, s.symbol)
    requires |l.linked| + SVC_LINKED_FUNCTIONS_BASE < RET_FLAG
    ensures match DoLazyLink(p, l, s.addr)
            case Failed(_) => false
            case Done(l1, f) =>
              && Inv(p, loaded, l1) && Grows(l, l1) && l1.nonLazy == l.nonLazy && l1.routines == l.routines
              && OnlyStubChanged(loaded, l.mem, l1.mem, s)
              && (if s.symbol in p.hosts && s.symbol !in l.nonLazy then f == Some(s.symbol) &&
                 LinkedTo(l1, s, |l.linked|)
                  else f == None && Restored(p, loaded, l1, s) && l1.linked == l.linked)
  {
    hide Inv, OnlyStubChanged, LinkedTo, Restored, LinkByRestoring, Unlinked, IsStub, Locate, SectionsOk, Layout;
    LayoutOf(p, loaded, l);
    StubIsFound(p, s);
    if s.symbol in l.nonLazy {
      RestoringKeeps(p, loaded, l, s, l.nonLazy[s.symbol]);
    } else if s.symbol in p.hosts {
      HostLinkingKeeps(p, loaded, l, s);
    } else {
      FirstExportIs(p.bins, s.symbol);
      RestoringKeeps(p, loaded, l, s, FirstExport(p.bins, s.symbol).value);
    }
  }

  /** A new guest function for a host function disturbs nothing and calls its function. */
  lemma CreatingKeeps(p: Program, loaded: Words, l: Linking, symbol: string, base: u32)
    requires Inv(p, loaded, l) && FreshRoutine(p, loaded, l, base)
    requires |l.linked| + SVC_LINKED_FUNCTIONS_BASE < RET_FLAG
    ensures match CreateGuestFunction(l, symbol, base)
            case Failed(_) => false
            case Done(l1, f) =>
              f == base && Inv(p, loaded, l1) && Grows(l, l1) && l1.nonLazy == l.nonLazy && base !in l.routines &&
              l1.routines == l.routines[base := symbol] && RoutineCalls(l1, base, |l.linked|, symbol)
  {
    hide IsStub, ExportedAt;
    var l1 := CreateGuestFunction(l, symbol, base).state;
    StoreAllIs(l.mem, base, [SVC_BASE + SvcFor(|l.linked|, false), RET]);
    assert RoutineCalls(l1, base, |l.linked|, symbol);
    forall s: Stub | IsStub(p, s) ensures StubOk(p, loaded, l1, s) {
      hide HoldsAt, StubOk, LinkedTo;
      assert ApartFromStub(loaded, base, s) && StubOk(p, loaded, l, s);
      StubsApart(p, loaded, s, s);
      UntouchedStub(p, loaded, l, l1, s);
    }
    assert base !in l.routines;
    NewRoutineOk(p, loaded, l, l1, base, symbol);
  }

  lemma NewRoutineOk(p: Program, loaded: Words, l: Linking, l1: Linking, base: u32, symbol: string)
    requires RoutinesOk(p, loaded, l) && FreshRoutine(p, loaded, l, base) && base !in l.routines
    requires l.linked <= l1.linked && l1.nonLazy == l.nonLazy && l1.routines == l.routines[base := symbol]
    requires exists idx: nat :: RoutineCalls(l1, base, idx, symbol)
    requires forall x: u32 :: !(base <= x < base + 8) ==> Load(l1.mem, x) == Load(l.mem, x)
    ensures RoutinesOk(p, loaded, l1)
  {
    hide IsStub, RoutineCalls, ApartFromStub;
    forall b | b in l1.routines ensures RoutineOk(p, loaded, l1, b) {
      if b != base {
        assert RoutineOk(p, loaded, l, b);
        UntouchedRoutine(p, loaded, l, l1, b);
      }
    }
  }

  /** Asking for a symbol's address twice gives the same guest function, and it calls that symbol. */
  lemma ProcAddresses(p: Program, loaded: Words, l: Linking, symbol: string, base: u32)
    requires Inv(p, loaded, l) && FreshRoutine(p, loaded, l, base)
    requires |l.linked| + SVC_LINKED_FUNCTIONS_BASE < RET_FLAG
    ensures match CreateProcAddress(p, l, symbol, base)
            case Failed(_) => false
            case Done(l1, r) =>
              && (r.Some? <==> symbol in p.hosts) && Inv(p, loaded, l1) && Grows(l, l1)
              && (r.Some? ==> l1.routines.Keys >= {r.value} && l1.routines[r.value] == symbol)
              && (r.Some? ==> forall again: u32 :: CreateProcAddress(p, l1, symbol, again) == Done(l1, r))
              && (symbol in l.nonLazy ==> r == Some(l.nonLazy[symbol]))
  {
    hide Inv, FreshRoutine, CreateGuestFunction, RoutineCalls;
    if symbol in l.nonLazy {
      Remembered(p, loaded, l, symbol);
    } else if symbol in p.hosts {
      CreatingKeeps(p, loaded, l, symbol, base);
      RememberingKeeps(p, loaded, CreateGuestFunction(l, symbol, base).state, symbol, base);
    }
  }

  lemma Remembered(p: Program, loaded: Words, l: Linking, symbol: string)
    requires Inv(p, loaded, l) && symbol in l.nonLazy
    ensures symbol in p.hosts && l.nonLazy[symbol] in l.routines && l.routines[l.nonLazy[symbol]] == symbol
  {
    hide Layout, IsStub, RoutineOk;
  }

  lemma RememberingKeeps(p: Program, loaded: Words, l: Linking, symbol: string, base: u32)
    requires Inv(p, loaded, l) && symbol in p.hosts && symbol !in l.nonLazy && base in l.routines &&
             l.routines[base] == symbol
    ensures Inv(p, loaded, l.(nonLazy := l.nonLazy[symbol := base]))
  {
    hide StubOk, Layout, RoutineOk, IsStub;
    var l1 := l.(nonLazy := l.nonLazy[symbol := base]);
    forall s: Stub | IsStub(p, s) ensures StubOk(p, loaded, l1, s) {
      StubsApart(p, loaded, s, s);
      AddressAdded(p, loaded, l, l1, s);
    }
    forall b | b in l1.routines ensures RoutineOk(p, loaded, l1, b) {
      assert RoutineOk(p, loaded, l, b);
      UntouchedRoutine(p, loaded, l, l1, b);
    }
  }

  lemma AddressAdded(p: Program, loaded: Words, l: Linking, l1: Linking, s: Stub)
    requires StubOk(p, loaded, l, s) && s.addr + EntrySize(s.form) <= TWO32
    requires l1 == l.(nonLazy := l1.nonLazy) && Grows(l, l1) && forall y :: y in l1.nonLazy ==> y in p.hosts
    ensures StubOk(p, loaded, l1, s)
  {
    UntouchedStub(p, loaded, l, l1, s);
  }

  /** Relinking a stub of 12 or 16 bytes undoes exactly what setting it up overwrote. */
  lemma RestoresWhatSetupOverwrote(loaded: Words, mem: Words, l: Linking, s: Stub, address: u32)
    requires !s.form.Direct? && s.addr + EntrySize(s.form) <= TWO32 && Aligned(s.addr)
    requires SetupStub(mem, s.addr, s.form).Some? && l.mem == SetupStub(mem, s.addr, s.form).value
    requires !Occupies(s, SlotOf(mem, s))
    ensures forall x: u32 :: Aligned(x) && x != SlotOf(mem, s) ==>
            Load(LinkByRestoring(l, s, address).mem, x) == Load(mem, x)
    ensures Load(LinkByRestoring(l, s, address).mem, SlotOf(mem, s)) == address
  {
    hide StoreAll, HoldsAt, Aligned;
    RestoringTheCode(mem, l.mem, s);
    assert SlotOf(StoreAll(l.mem, s.addr, RestoredInstructions(s)), s) == SlotOf(mem, s) by {
      assert Aligned(Add32(s.addr, 8)) && Aligned(Add32(s.addr, 12)) by { AlignedWords(s.addr); }
    }
  }

  lemma AlignedWords(a: u32)
    requires Aligned(a)
    ensures forall k: nat :: Aligned(Add32(a, 4 * k))
    ensures Aligned(Add32(a, 8)) && Aligned(Add32(a, 12))
  {
  }

  lemma RestoringTheCode(mem: Words, lazy: Words, s: Stub)
    requires !s.form.Direct? && s.addr + EntrySize(s.form) <= TWO32 && Aligned(s.addr)
    requires HoldsAt(mem, s.addr, OriginalInstructions(s.form)) &&
             lazy == StoreAll(mem, s.addr, LazyInstructions(s.form))
    ensures forall x: u32 :: Aligned(x) ==> Load(StoreAll(lazy, s.addr, RestoredInstructions(s)), x) == Load(mem, x)
  {
    hide StoreAll;
    var ws := RestoredInstructions(s);
    StoreAllIs(mem, s.addr, LazyInstructions(s.form));
    StoreAllIs(lazy, s.addr, ws);
    var m := StoreAll(lazy, s.addr, ws);
    forall x: u32 | Aligned(x) ensures Load(m, x) == Load(mem, x) {
      if s.addr <= x < s.addr + 4 * |ws| {
        var j := (x - s.addr) / 4;
        assert Load(m, Add32(s.addr, 4 * j)) == ws[j] == Load(mem, Add32(s.addr, 4 * j));
      }
    }
  }
}
