/** When setting up, linking and dispatching succeed, and what stops them otherwise (src/dyld.rs:409-462, 630-870). */
module LinkerOutcomes {
  import opened Prelude
  import opened Arm
  import opened Linker
  import opened LinkerInvariant
  import opened LinkerSetup

  // ---------------------------------------------------------------- setting up

  /** The instructions that entries of 12 and 16 bytes must begin with. */
  predicate BuiltAt(mem: Words, f: Form, a: int) {
    match f
    case Direct => true
    case Absolute => Load(mem, Add32(a, 0)) == 0xe59fc000 && Load(mem, Add32(a, 4)) == 0xe59cf000
    case Pic =>
      Load(mem, Add32(a, 0)) == 0xe59fc004 && Load(mem, Add32(a, 4)) == 0xe08fc00c &&
      Load(mem, Add32(a, 8)) == 0xe59cf000
  }

  predicate EntryBuilt(mem: Words, s: Section, k: nat) { BuiltAt(mem, s.form, EntryAt(s, k)) }

  lemma StubSucceedsIff(mem: Words, f: Form, a: u32)
    ensures SetupStub(mem, a, f).Some? <==> BuiltAt(mem, f, a)
  {
    hide StoreAll;
    var ws := OriginalInstructions(f);
    if HoldsAt(mem, a, ws) {
      if !f.Direct? { assert Load(mem, Add32(a, 4 * 0)) == ws[0] && Load(mem, Add32(a, 4 * 1)) == ws[1]; }
      if f.Pic? { assert Load(mem, Add32(a, 4 * 2)) == ws[2]; }
    }
  }

  /** An entry in memory that has not changed there is what it was. */
  lemma SameBuilt(a: Words, b: Words, s: Section, k: nat)
    requires SectionOk(s) && k < |s.symbols|
    requires forall x: u32 :: EntryAt(s, k) <= x < s.addr + SizeOf(s) ==> Load(a, x) == Load(b, x)
    ensures EntryBuilt(a, s, k) <==> EntryBuilt(b, s, k)
  {
    EntryBounds(s, k, k + 1);
    EntrySizes(s.form);
    SameWords(a, b, s.form, EntryAt(s, k), s.addr + SizeOf(s));
  }

  lemma SameWords(a: Words, b: Words, f: Form, at: int, end: int)
    requires 0 <= at && at + EntrySize(f) <= end <= TWO32
    requires forall x: u32 :: at <= x < end ==> Load(a, x) == Load(b, x)
    ensures BuiltAt(a, f, at) <==> BuiltAt(b, f, at)
  {
    EntrySizes(f);
  }

  lemma {:induction false} FirstSucceedIff(mem: Words, s: Section, n: nat)
    requires SectionOk(s) && n <= |s.symbols|
    ensures SetupFirst(mem, s, n).Some? <==> forall k: nat :: k < n ==> EntryBuilt(mem, s, k)
    decreases n
  {
    hide EntryBuilt, EntryAt, SetupStub;
    if n > 0 {
      FirstSucceedIff(mem, s, n - 1);
      if SetupFirst(mem, s, n - 1).Some? {
        var m := SetupFirst(mem, s, n - 1).value;
        SetupFirstIs(mem, s, n - 1);
        NextSucceedsIff(mem, m, s, n - 1);
      }
    }
  }

  lemma NextSucceedsIff(mem: Words, m: Words, s: Section, k: nat)
    requires SectionOk(s) && k < |s.symbols| && SameOutside(mem, m, s.addr, EntryAt(s, k))
    ensures SetupStub(m, Add32(s.addr, k * EntrySize(s.form)), s.form).Some? <==> EntryBuilt(mem, s, k)
  {
    hide SetupStub, BuiltAt;
    EntryBounds(s, k, k + 1);
    EntrySizes(s.form);
    StubSucceedsIff(m, s.form, EntryAt(s, k));
    SameBuilt(mem, m, s, k);
  }

  /** All entries of the first `n` binaries begin as they must. */
  ghost predicate AllBuilt(mem: Words, bins: seq<Binary>, n: nat)
    requires n <= |bins|
  {
    forall i: nat, k: nat :: i < n && bins[i].stubs.Some? && k < |bins[i].stubs.value.symbols| ==>
      EntryBuilt(mem, bins[i].stubs.value, k)
  }

  /** Nothing has changed outside the stub sections of the first `n` binaries. */
  ghost predicate SameElsewhere(a: Words, b: Words, bins: seq<Binary>, n: nat)
    requires n <= |bins|
  {
    forall x: u32 :: (forall i :: 0 <= i < n ==> !InSection(bins[i], x)) ==> Load(b, x) == Load(a, x)
  }

  lemma {:induction false} BinsSucceedIff(mem: Words, bins: seq<Binary>, n: nat)
    requires SectionsOk(bins) && n <= |bins|
    ensures SetupBins(mem, bins, n).Some? <==> AllBuilt(mem, bins, n)
    ensures SetupBins(mem, bins, n).Some? ==> SameElsewhere(mem, SetupBins(mem, bins, n).value, bins, n)
    decreases n
  {
    hide EntryBuilt, SetupFirst, SectionsOk;
    if n > 0 {
      BinsSucceedIff(mem, bins, n - 1);
      if SetupBins(mem, bins, n - 1).Some? {
        SetupBinsIs(mem, bins, n - 1);
        BinSucceedsIff(mem, SetupBins(mem, bins, n - 1).value, bins, n - 1);
      }
    }
  }

  lemma BinSucceedsIff(mem: Words, m: Words, bins: seq<Binary>, i: nat)
    requires SectionsOk(bins) && i < |bins| && BinsUntouched(mem, m, bins, i) && SameElsewhere(mem, m, bins, i)
    ensures SetupBin(m, bins[i]).Some? <==>
            (bins[i].stubs.Some? ==>
               forall k: nat :: k < |bins[i].stubs.value.symbols| ==> EntryBuilt(mem, bins[i].stubs.value, k))
    ensures SetupBin(m, bins[i]).Some? ==> SameElsewhere(mem, SetupBin(m, bins[i]).value, bins, i + 1)
  {
    hide EntryBuilt, SetupFirst, EntryAt;
    if bins[i].stubs.Some? {
      var s := bins[i].stubs.value;
      FirstSucceedIff(m, s, |s.symbols|);
      forall k: nat | k < |s.symbols| ensures EntryBuilt(m, s, k) <==> EntryBuilt(mem, s, k) {
        SectionUntouched(mem, m, bins, i);
        EntryBounds(s, k, k + 1);
        SameBuilt(mem, m, s, k);
      }
      if SetupBin(m, bins[i]).Some? {
        SetupFirstIs(m, s, |s.symbols|);
        EndOfSection(s);
      }
    }
  }

  lemma SectionUntouched(mem: Words, m: Words, bins: seq<Binary>, i: nat)
    requires i < |bins| && BinsUntouched(mem, m, bins, i) && bins[i].stubs.Some?
    ensures var s := bins[i].stubs.value;
            forall x: u32 :: s.addr <= x < s.addr + SizeOf(s) ==> Load(mem, x) == Load(m, x)
  {
    var s := bins[i].stubs.value;
    forall x: u32 | s.addr <= x < s.addr + SizeOf(s) ensures Load(mem, x) == Load(m, x) {
      assert InSection(bins[i], x);
    }
  }

  lemma EndOfSection(s: Section)
    ensures EntryAt(s, |s.symbols|) == s.addr + SizeOf(s)
  {
  }

  /**
   Setting up succeeds exactly if every entry of every binary begins with the instructions expected of
   its kind, and it changes nothing outside the stub sections.
   */
  lemma {:induction false} SetupSucceedsIff(loaded: Words, bins: seq<Binary>)
    requires SectionsOk(bins)
    ensures var r := SetupBins(loaded, bins, |bins|);
            && (r.Some? <==> AllBuilt(loaded, bins, |bins|))
            && (r.Some? ==> SameElsewhere(loaded, r.value, bins, |bins|))
  {
    BinsSucceedIff(loaded, bins, |bins|);
  }

  // ---------------------------------------------------------------- finding the stub

  /** The k-th entry of the i-th binary, which is for no symbol, lies at `pc`. */
  predicate EmptyEntry(bins: seq<Binary>, i: nat, k: nat, pc: u32) {
    i < |bins| && bins[i].stubs.Some? && k < |bins[i].stubs.value.symbols| &&
    bins[i].stubs.value.symbols[k].None? && EntryAt(bins[i].stubs.value, k) == pc
  }

  /** What the linker finds at an address, if the stub sections do not overlap. */
  lemma {:induction false} LocatesIff(p: Program, pc: u32)
    requires SectionsOk(p.bins)
    ensures match Locate(p.bins, pc)
            case At(s) => s.addr == pc && IsStub(p, s)
            case Nowhere(why) =>
              && (forall s: Stub :: IsStub(p, s) ==> s.addr != pc)
              && why == (if forall i :: 0 <= i < |p.bins| ==> !InSection(p.bins[i], pc) then NoStub
                         else if exists i: nat, k: nat :: EmptyEntry(p.bins, i, k, pc) then NoSymbol
                         else NotAtEntry)
  {
    hide IsStub, FindBin, SectionsOk;
    if Locate(p.bins, pc).At? {
      FoundIsEntry(p, pc);
    } else {
      forall s: Stub | IsStub(p, s) ensures s.addr != pc { StubIsFound(p, s); }
      WhyNowhere(p, pc);
    }
  }

  lemma {:induction false} WhyNowhere(p: Program, pc: u32)
    requires SectionsOk(p.bins) && Locate(p.bins, pc).Nowhere?
    ensures Locate(p.bins, pc).why ==
            (if forall i :: 0 <= i < |p.bins| ==> !InSection(p.bins[i], pc) then NoStub
             else if exists i: nat, k: nat :: EmptyEntry(p.bins, i, k, pc) then NoSymbol
             else NotAtEntry)
  {
    hide FindBin, SectionsOk, EntrySize;
    if i :| 0 <= i < |p.bins| && InSection(p.bins[i], pc) {
      FoundBin(p, i, pc);
      var s := p.bins[i].stubs.value;
      var e := EntrySize(s.form);
      EntrySizes(s.form);
      if (pc - s.addr) % e == 0 {
        OffsetIndex(pc - s.addr, e, |s.symbols|);
        assert EmptyEntry(p.bins, i, (pc - s.addr) / e, pc);
      } else if j: nat, k: nat :| EmptyEntry(p.bins, j, k, pc) {
        EmptyEntryInSection(p.bins, j, k, pc);
        BinsApart(p, i, j, pc);
      }
    } else {
      forall b | b in p.bins ensures !InSection(b, pc) {
        var i :| 0 <= i < |p.bins| && p.bins[i] == b;
      }
    }
  }

  lemma EmptyEntryInSection(bins: seq<Binary>, i: nat, k: nat, pc: u32)
    requires EmptyEntry(bins, i, k, pc)
    ensures InSection(bins[i], pc) && (pc - bins[i].stubs.value.addr) % EntrySize(bins[i].stubs.value.form) == 0
  {
    var s := bins[i].stubs.value;
    EntrySizes(s.form);
    EntryIndex(k, EntrySize(s.form), |s.symbols|);
  }

  // ---------------------------------------------------------------- linking

  /** The first call of `s` will give its host function a number. */
  predicate NeedsNumber(p: Program, l: Linking, s: Stub) { s.symbol in p.hosts && s.symbol !in l.nonLazy }

  /** Why the first call of a stub stops, if it does: its symbol is nowhere, or there is no number left for it. */
  ghost function LinkRefusal(p: Program, l: Linking, s: Stub): Option<Panic> {
    if !Resolvable(p, s.symbol) then Some(Unimplemented(s.symbol))
    else if !NeedsNumber(p, l, s) then None
    else if s.form.Direct? && |l.linked| + 3 >= 0x800000 then Some(NoRoomForFlag)
    else if |l.linked| + 3 >= 0x1000000 then Some(SvcTooLarge)
    else None
  }

  lemma {:induction false} LinksIff(p: Program, loaded: Words, l: Linking, s: Stub)
    requires Inv(p, loaded, l) && IsStub(p, s) && Unlinked(l, s)
    ensures match LinkRefusal(p, l, s)
            case Some(why) => DoLazyLink(p, l, s.addr) == Failed(why)
            case None => DoLazyLink(p, l, s.addr).Done?
  {
    hide IsStub, Locate, SectionsOk, Inv, Resolvable, LinkByRestoring;
    LayoutOf(p, loaded, l);
    StubIsFound(p, s);
    FirstExportIs(p.bins, s.symbol);
    Resolving(p, loaded, l, s.symbol);
    var svc := SvcFor(|l.linked|, s.form.Direct?);
    if !s.form.Direct? && svc < 0x1000000 { SecondWordIsReturn(p, loaded, l, s, SVC_BASE + svc); }
  }

  lemma Resolving(p: Program, loaded: Words, l: Linking, symbol: string)
    requires Inv(p, loaded, l)
    ensures Resolvable(p, symbol) <==> symbol in p.hosts || FirstExport(p.bins, symbol).Some?
    ensures symbol in l.nonLazy ==> Resolvable(p, symbol)
  {
    hide Inv;
    FirstExportIs(p.bins, symbol);
    if symbol in l.nonLazy { Remembered(p, loaded, l, symbol); }
  }

  /** The word after the first of an unlinked entry of 12 or 16 bytes is a return, and stays one. */
  lemma SecondWordIsReturn(p: Program, loaded: Words, l: Linking, s: Stub, w: u32)
    requires Inv(p, loaded, l) && IsStub(p, s) && Unlinked(l, s) && !s.form.Direct?
    ensures Load(l.mem[s.addr := w], Add32(s.addr, 4)) == RET
  {
    hide IsStub, Layout, StubOk, RoutinesOk;
    StubsApart(p, loaded, s, s);
    assert Load(l.mem, Add32(s.addr, 4 * 1)) == LazyInstructions(s.form)[1];
  }

  // ---------------------------------------------------------------- dispatching

  /**
   Which function an SVC asks for: the number without the flag counts from 3 on, the flag alone and zero
   ask for the linker, and nothing else is known.
   */
  lemma {:induction false} HandlerIs(p: Program, l: Linking, pc: u32, svc: nat)
    requires svc < 0x1000000
    ensures var n := svc % 0x800000;
            GetSvcHandler(p, l, pc, svc) ==
            if n == 0 then DoLazyLink(p, l, pc)
            else if 3 <= n < 3 + |l.linked| then Done(l, Some(l.linked[n - 3]))
            else Failed(UnexpectedSvc)
  {
    hide DoLazyLink;
  }

  /** A guest function for a host function can be had exactly while there is a number for it or it has been made. */
  lemma ProcAddressIff(p: Program, l: Linking, symbol: string, base: u32)
    ensures CreateProcAddress(p, l, symbol, base).Done? <==>
            symbol !in p.hosts || symbol in l.nonLazy || |l.linked| + 3 < 0x1000000
    ensures CreateProcAddress(p, l, symbol, base).Failed? ==>
              CreateProcAddress(p, l, symbol, base) == Failed(SvcTooLarge)
  {
    hide StoreAll;
  }
}
