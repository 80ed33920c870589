/** Setting up the stubs of all binaries establishes the invariant (src/dyld.rs:420-462). */
module LinkerSetup {
  import opened Prelude
  import opened Arm
  import opened Linker
  import opened LinkerInvariant

  function EntryAt(s: Section, k: nat): int { s.addr + k * EntrySize(s.form) }

  /** The entry at `a` has the lazy-linking code, and the data behind it is what it was. */
  predicate SetUpAt(before: Words, after: Words, f: Form, a: u32) {
    && HoldsAt(after, a, LazyInstructions(f))
    && (f.Absolute? ==> Load(after, Add32(a, 8)) == Load(before, Add32(a, 8)))
    && (f.Pic? ==> Load(after, Add32(a, 12)) == Load(before, Add32(a, 12)))
  }

  predicate EntrySetUp(before: Words, after: Words, s: Section, k: nat) {
    SetUpAt(before, after, s.form, Add32(EntryAt(s, k), 0))
  }

  predicate SameOutside(before: Words, after: Words, lo: int, hi: int) {
    forall x: u32 :: !(lo <= x < hi) ==> Load(after, x) == Load(before, x)
  }

  lemma EntryBounds(s: Section, k: nat, n: nat)
    requires k < n <= |s.symbols|
    ensures s.addr <= EntryAt(s, k) && EntryAt(s, k) + EntrySize(s.form) <= EntryAt(s, n) <= s.addr + SizeOf(s)
    ensures EntryAt(s, k + 1) == EntryAt(s, k) + EntrySize(s.form)
  {
    Grow(k + 1, n, EntrySize(s.form));
    Grow(n, |s.symbols|, EntrySize(s.form));
  }

  lemma Grow(a: nat, b: nat, e: nat)
    requires a <= b
    ensures a * e <= b * e && a * e + e == (a + 1) * e
  {
  }

  /** What lies at and behind an entry does not change, so it stays set up. */
  lemma StaysSetUp(before: Words, a: Words, b: Words, s: Section, k: nat, lo: int, hi: int)
    requires EntrySetUp(before, a, s, k) && SameOutside(a, b, lo, hi)
    requires EntryAt(s, k) >= 0 && EntryAt(s, k) + EntrySize(s.form) <= TWO32
    requires EntryAt(s, k) + EntrySize(s.form) <= lo || hi <= EntryAt(s, k)
    ensures EntrySetUp(before, b, s, k)
  {
    hide EntryAt, SetUpAt;
    StaysSetUpAt(before, a, b, s.form, EntryAt(s, k), lo, hi);
  }

  lemma StaysSetUpAt(before: Words, a: Words, b: Words, f: Form, at: u32, lo: int, hi: int)
    requires SetUpAt(before, a, f, at) && SameOutside(a, b, lo, hi)
    requires at + EntrySize(f) <= TWO32 && (at + EntrySize(f) <= lo || hi <= at)
    ensures SetUpAt(before, b, f, at)
  {
    var ws := LazyInstructions(f);
    forall j | 0 <= j < |ws| ensures Load(b, Add32(at, 4 * j)) == ws[j] {
      assert Load(a, Add32(at, 4 * j)) == ws[j];
    }
  }

  lemma {:induction false} SetupFirstIs(mem: Words, s: Section, n: nat)
    requires SectionOk(s) && n <= |s.symbols| && SetupFirst(mem, s, n).Some?
    ensures forall k: nat :: k < n ==> EntrySetUp(mem, SetupFirst(mem, s, n).value, s, k)
    ensures SameOutside(mem, SetupFirst(mem, s, n).value, s.addr, EntryAt(s, n))
    decreases n
  {
    hide EntrySetUp, EntryAt, HoldsAt, StoreAll;
    if n > 0 {
      var m := SetupFirst(mem, s, n - 1).value;
      SetupFirstIs(mem, s, n - 1);
      EntryBounds(s, n - 1, n);
      var after := SetupFirst(mem, s, n).value;
      LastEntry(mem, m, after, s, n - 1);
      forall k: nat | k < n ensures EntrySetUp(mem, after, s, k) {
        if k < n - 1 {
          EntryBounds(s, k, n - 1);
          StaysSetUp(mem, m, after, s, k, EntryAt(s, n - 1), EntryAt(s, n));
        }
      }
    } else {
      assert EntryAt(s, 0) == s.addr by { EntryZero(s); }
    }
  }

  lemma EntryZero(s: Section)
    ensures EntryAt(s, 0) == s.addr
  {
  }

  lemma LastEntry(mem: Words, m: Words, after: Words, s: Section, k: nat)
    requires SectionOk(s) && k < |s.symbols| && SameOutside(mem, m, s.addr, EntryAt(s, k))
    requires SetupStub(m, Add32(s.addr, k * EntrySize(s.form)), s.form) == Some(after)
    ensures EntrySetUp(mem, after, s, k) && SameOutside(m, after, EntryAt(s, k), EntryAt(s, k + 1))
  {
    hide StoreAll, HoldsAt, SizeOf;
    EntryBounds(s, k, k + 1);
    var a := EntryAt(s, k);
    assert SectionOk(s) && a + EntrySize(s.form) <= TWO32;
    SetupStubIs(mem, m, after, s.form, a);
  }

  lemma SetupStubIs(mem: Words, m: Words, after: Words, f: Form, a: u32)
    requires a + EntrySize(f) <= TWO32 && SetupStub(m, a, f) == Some(after)
    requires forall x: u32 :: a <= x ==> Load(m, x) == Load(mem, x)
    ensures HoldsAt(after, a, LazyInstructions(f)) && SameOutside(m, after, a, a + EntrySize(f))
    ensures f.Absolute? ==> Load(after, Add32(a, 8)) == Load(mem, Add32(a, 8))
    ensures f.Pic? ==> Load(after, Add32(a, 12)) == Load(mem, Add32(a, 12))
  {
    hide StoreAll, HoldsAt;
    StoreAllIs(m, a, LazyInstructions(f));
  }

  /** Every entry of the first `n` binaries is set up. */
  ghost predicate BinsSetUp(before: Words, after: Words, bins: seq<Binary>, n: nat)
    requires n <= |bins|
  {
    forall i: nat, k: nat :: i < n && bins[i].stubs.Some? && k < |bins[i].stubs.value.symbols| ==>
      EntrySetUp(before, after, bins[i].stubs.value, k)
  }

  /** Nothing in the stub sections of the remaining binaries has changed. */
  ghost predicate BinsUntouched(before: Words, after: Words, bins: seq<Binary>, n: nat)
    requires n <= |bins|
  {
    forall x: u32, i: nat :: n <= i < |bins| && InSection(bins[i], x) ==> Load(after, x) == Load(before, x)
  }

  /** An entry set up from memory that differs from `before` only elsewhere is set up from `before`. */
  lemma SetUpFrom(before: Words, m: Words, after: Words, s: Section, k: nat)
    requires EntrySetUp(m, after, s, k) && SectionOk(s) && k < |s.symbols|
    requires forall x: u32 :: s.addr <= x < s.addr + SizeOf(s) ==> Load(m, x) == Load(before, x)
    ensures EntrySetUp(before, after, s, k)
  {
    EntryBounds(s, k, k + 1);
  }

  lemma {:induction false} SetupBinsIs(mem: Words, bins: seq<Binary>, n: nat)
    requires SectionsOk(bins) && n <= |bins| && SetupBins(mem, bins, n).Some?
    ensures BinsSetUp(mem, SetupBins(mem, bins, n).value, bins, n)
    ensures BinsUntouched(mem, SetupBins(mem, bins, n).value, bins, n)
    decreases n
  {
    hide EntrySetUp, SetupFirst;
    if n > 0 {
      SetupBinsIs(mem, bins, n - 1);
      if bins[n - 1].stubs.Some? {
        NextBin(mem, SetupBins(mem, bins, n - 1).value, bins, n - 1);
      }
    }
  }

  lemma NextBin(mem: Words, m: Words, bins: seq<Binary>, n: nat)
    requires SectionsOk(bins) && n < |bins| && bins[n].stubs.Some? && SetupBin(m, bins[n]).Some?
    requires BinsSetUp(mem, m, bins, n) && BinsUntouched(mem, m, bins, n)
    ensures BinsSetUp(mem, SetupBin(m, bins[n]).value, bins, n + 1)
    ensures BinsUntouched(mem, SetupBin(m, bins[n]).value, bins, n + 1)
  {
    hide EntrySetUp, SetupFirst;
    var s := bins[n].stubs.value;
    var after := SetupBin(m, bins[n]).value;
    SetupFirstIs(m, s, |s.symbols|);
    forall i: nat, k: nat | i < n + 1 && bins[i].stubs.Some? && k < |bins[i].stubs.value.symbols|
      ensures EntrySetUp(mem, after, bins[i].stubs.value, k)
    {
      var t := bins[i].stubs.value;
      EntryBounds(t, k, |t.symbols|);
      if i < n {
        StaysSetUp(mem, m, after, t, k, s.addr, s.addr + SizeOf(s));
      } else {
        forall x: u32 | s.addr <= x < s.addr + SizeOf(s) ensures Load(m, x) == Load(mem, x) {
          assert InSection(bins[n], x);
        }
        SetUpFrom(mem, m, after, s, k);
      }
    }
  }

  /** Once every binary's stubs are set up, every stub is unlinked and nothing has been linked yet. */
  lemma SetupEstablishesInvariant(p: Program, loaded: Words)
    requires Layout(p, loaded) && SetupBins(loaded, p.bins, |p.bins|).Some?
    ensures Inv(p, loaded, Linking(SetupBins(loaded, p.bins, |p.bins|).value, [], map[], map[]))
  {
    hide EntrySetUp, SetupBins, IsStub, EntrySize;
    var m := SetupBins(loaded, p.bins, |p.bins|).value;
    SetupBinsIs(loaded, p.bins, |p.bins|);
    var l := Linking(m, [], map[], map[]);
    forall s: Stub | IsStub(p, s) ensures StubOk(p, loaded, l, s) {
      StubInSection(p, s);
      var b := FindBin(p.bins, s.addr).value;
      var i :| 0 <= i < |p.bins| && p.bins[i] == b;
      StubIsEntry(loaded, l, s, b.stubs.value);
    }
  }

  lemma StubIsEntry(loaded: Words, l: Linking, s: Stub, sec: Section)
    requires sec.addr <= s.addr < sec.addr + SizeOf(sec) && sec.form == s.form &&
             (s.addr - sec.addr) % EntrySize(s.form) == 0
    requires forall k: nat :: k < |sec.symbols| ==> EntrySetUp(loaded, l.mem, sec, k)
    ensures DataKept(loaded, l.mem, s) && Unlinked(l, s)
  {
    var e := EntrySize(s.form);
    var k := (s.addr - sec.addr) / e;
    assert EntryAt(sec, k) == s.addr;
    assert k < |sec.symbols| by { InRange(s.addr - sec.addr, |sec.symbols|, e); }
    assert EntrySetUp(loaded, l.mem, sec, k);
  }
}
