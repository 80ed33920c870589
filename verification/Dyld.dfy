/**
 The dynamic linker as the source runs it: writing guest words one by one and growing its tables in
 place (src/dyld.rs).
 */
module Dylds {
  import opened Prelude
  import opened Arm
  import L = Linker

  datatype Status<+V> = Ok(value: V) | Panic(why: L.Panic)

  class Mem {
    var words: Words

    constructor (loaded: Words)
      ensures words == loaded
    {
      words := loaded;
    }

    function Read(a: u32): u32
      reads this
    {
      Load(words, a)
    }

    method Write(a: u32, w: u32)
      modifies this
      ensures words == old(words)[a := w]
    {
      words := words[a := w];
    }
  }

  class Dyld {
    var linkedHostFunctions: seq<string>
    var nonLazyHostFunctions: map<string, u32>
    ghost var routines: map<u32, string>

    constructor ()
      ensures linkedHostFunctions == [] && nonLazyHostFunctions == map[] && routines == map[]
    {
      linkedHostFunctions, nonLazyHostFunctions, routines := [], map[], map[];
    }

    /** The linker's tables together with the guest memory it works on. */
    ghost function View(mem: Mem): L.Linking
      reads this, mem
    {
      L.Linking(mem.words, linkedHostFunctions, nonLazyHostFunctions, routines)
    }

    ghost predicate Matches<V>(mem: Mem, spec: L.Result<V>, r: Status<V>)
      reads this, mem
    {
      match spec
      case Done(l, v) => r == Ok(v) && View(mem) == l
      case Failed(why) => r == Panic(why)
    }

    // -------------------------------------------------------------- setting up

    method WriteAll(mem: Mem, a: u32, ws: seq<u32>)
      modifies mem
      ensures mem.words == L.StoreAll(old(mem.words), a, ws)
    {
      for j := 0 to |ws|
        invariant mem.words == L.StoreAll(old(mem.words), a, ws[..j])
      {
        mem.Write(Add32(a, 4 * j), ws[j]);
        assert ws[..j + 1][..j] == ws[..j];
      }
      assert ws[..|ws|] == ws;
    }

    method SetupStub(mem: Mem, form: L.Form, ptr: u32) returns (ok: bool)
      modifies mem
      ensures match L.SetupStub(old(mem.words), ptr, form)
              case Some(m) => ok && mem.words == m
              case None => !ok
    {
      var expected := L.OriginalInstructions(form);
      for j := 0 to |expected|
        invariant mem.words == old(mem.words)
        invariant forall i :: 0 <= i < j ==> mem.Read(Add32(ptr, 4 * i)) == expected[i]
      {
        if mem.Read(Add32(ptr, 4 * j)) != expected[j] { return false; }
      }
      if form.Direct? {
        mem.Write(ptr, SVC_BASE + L.RET_FLAG);
      } else {
        mem.Write(ptr, SVC_BASE + L.SVC_LAZY_LINK);
        mem.Write(Add32(ptr, 4), RET);
      }
      if form.Pic? { mem.Write(Add32(ptr, 8), TRAP); }
      StoredOneByOne(old(mem.words), ptr, form);
      return true;
    }

    static lemma StoredOneByOne(m: Words, a: u32, form: L.Form)
      ensures match form
              case Direct => L.StoreAll(m, a, L.LazyInstructions(form)) == m[a := SVC_BASE + L.RET_FLAG]
              case Absolute => L.StoreAll(m, a, L.LazyInstructions(form)) ==
                m[a := SVC_BASE + L.SVC_LAZY_LINK][Add32(a, 4) := RET]
              case Pic => L.StoreAll(m, a, L.LazyInstructions(form))
                          == m[a := SVC_BASE + L.SVC_LAZY_LINK][Add32(a, 4) := RET][Add32(a, 8) := TRAP]
    {
      var ws := L.LazyInstructions(form);
      assert L.StoreAll(m, a, ws[..0]) == m;
      assert ws[..1][..0] == ws[..0] && L.StoreAll(m, a, ws[..1]) == m[a := ws[0]];
      if !form.Direct? {
        assert ws[..2][..1] == ws[..1] && L.StoreAll(m, a, ws[..2]) == m[a := ws[0]][Add32(a, 4) := ws[1]];
      }
      if form.Pic? { assert ws[..3][..2] == ws[..2]; }
      assert ws[..|ws|] == ws;
    }

    /** `setup_lazy_linking` for one binary; false where an instruction is not the expected one. */
    method SetupLazyLinking(bin: L.Binary, mem: Mem) returns (ok: bool)
      modifies mem
      ensures match L.SetupBin(old(mem.words), bin)
              case Some(m) => ok && mem.words == m
              case None => !ok
    {
      if bin.stubs.None? { return true; }
      var stubs := bin.stubs.value;
      for i := 0 to |stubs.symbols|
        invariant L.SetupFirst(old(mem.words), stubs, i) == Some(mem.words)
      {
        var done := SetupStub(mem, stubs.form, Add32(stubs.addr, i * L.EntrySize(stubs.form)));
        if !done {
          SetupStaysFailed(old(mem.words), stubs, i + 1, |stubs.symbols|);
          return false;
        }
      }
      return true;
    }

    static lemma {:induction false} SetupStaysFailed(m: Words, s: L.Section, n: nat, k: nat)
      requires n <= k && L.SetupFirst(m, s, n).None?
      ensures L.SetupFirst(m, s, k).None?
      decreases k
    {
      if n < k { SetupStaysFailed(m, s, n, k - 1); }
    }

    // -------------------------------------------------------------- lazy linking

    /** The first binary whose stubs contain `pc`. */
    method FindStubs(bins: seq<L.Binary>, pc: u32) returns (r: Option<L.Binary>)
      ensures r == L.FindBin(bins, pc)
    {
      for i := 0 to |bins|
        invariant L.FindBin(bins, pc) == L.FindBin(bins[i..], pc)
      {
        if L.InSection(bins[i], pc) { return Some(bins[i]); }
      }
      return None;
    }

    method FindExport(bins: seq<L.Binary>, symbol: string) returns (r: Option<u32>)
      ensures r == L.FirstExport(bins, symbol)
    {
      for i := 0 to |bins|
        invariant L.FirstExport(bins, symbol) == L.FirstExport(bins[i..], symbol)
      {
        if symbol in bins[i].exports { return Some(bins[i].exports[symbol]); }
      }
      return None;
    }

    method LinkByRestoringStub(mem: Mem, linkedFunction: u32, s: L.Stub)
      modifies mem
      ensures View(mem) == L.LinkByRestoring(old(View(mem)), s, linkedFunction)
    {
      WriteAll(mem, s.addr, L.RestoredInstructions(s));
      var laSymbolPtr: u32;
      match s.form {
        case Absolute => laSymbolPtr := mem.Read(Add32(s.addr, 8));
        case Direct =>
          var offset := mem.Read(s.addr) % 0x1000;
          laSymbolPtr := Add32(s.addr, offset + 8);
        case Pic =>
          var offset := mem.Read(Add32(s.addr, 12));
          var past: int := offset;
          laSymbolPtr := Add32(s.addr, past + 12);
      }
      mem.Write(laSymbolPtr, linkedFunction);
    }

    /** Which stub an SVC at `svcPc` is in. */
    method FindStub(bins: seq<L.Binary>, svcPc: u32) returns (r: Status<L.Stub>)
      ensures match L.Locate(bins, svcPc)
              case At(s) => r == Ok(s) && s.addr == svcPc
              case Nowhere(why) => r == Panic(why)
    {
      var bin := FindStubs(bins, svcPc);
      if bin.None? { return Panic(L.NoStub); }
      var stubs := bin.value.stubs.value;
      var offset := svcPc - stubs.addr;
      if offset % L.EntrySize(stubs.form) != 0 { return Panic(L.NotAtEntry); }
      var symbol := stubs.symbols[offset / L.EntrySize(stubs.form)];
      if symbol.None? { return Panic(L.NoSymbol); }
      return Ok(L.Stub(svcPc, stubs.form, symbol.value, L.PicOffset(bin.value)));
    }

    /** `do_lazy_link`: links the stub whose SVC is at `svcPc`, and says which host function to call, if any. */
    method DoLazyLink(p: L.Program, mem: Mem, svcPc: u32) returns (r: Status<Option<string>>)
      modifies this`linkedHostFunctions, mem
      ensures Matches(mem, L.DoLazyLink(p, old(View(mem)), svcPc), r)
    {
      var found := FindStub(p.bins, svcPc);
      if found.Panic? { return Panic(found.why); }
      var s := found.value;
      if s.symbol in nonLazyHostFunctions {
        LinkByRestoringStub(mem, nonLazyHostFunctions[s.symbol], s);
        return Ok(None);
      }
      if s.symbol in p.hosts {
        var idx := |linkedHostFunctions|;
        var svc := idx + L.SVC_LINKED_FUNCTIONS_BASE;
        if s.form.Direct? {
          if svc >= L.RET_FLAG { return Panic(L.NoRoomForFlag); }
          svc := svc + L.RET_FLAG;
        }
        linkedHostFunctions := linkedHostFunctions + [s.symbol];
        if svc >= 0x1000000 { return Panic(L.SvcTooLarge); }
        mem.Write(svcPc, SVC_BASE + svc);
        if !s.form.Direct? && mem.Read(Add32(svcPc, 4)) != RET { return Panic(L.StubChanged); }
        return Ok(Some(s.symbol));
      }
      var exported := FindExport(p.bins, s.symbol);
      if exported.None? { return Panic(L.Unimplemented(s.symbol)); }
      LinkByRestoringStub(mem, exported.value, s);
      return Ok(None);
    }

    method GetSvcHandler(p: L.Program, mem: Mem, svcPc: u32, svc: nat) returns (r: Status<Option<string>>)
      modifies this`linkedHostFunctions, mem
      ensures Matches(mem, L.GetSvcHandler(p, old(View(mem)), svcPc, svc), r)
    {
      if svc == L.SVC_LAZY_LINK || svc == L.RET_FLAG {
        r := DoLazyLink(p, mem, svcPc);
        return r;
      }
      if svc == L.SVC_THREAD_EXIT || svc == L.SVC_RETURN_TO_HOST ||
        L.WithoutRetFlag(svc) < L.SVC_LINKED_FUNCTIONS_BASE {
        return Panic(L.UnexpectedSvc);
      }
      var idx := L.WithoutRetFlag(svc) - L.SVC_LINKED_FUNCTIONS_BASE;
      if idx >= |linkedHostFunctions| { return Panic(L.UnexpectedSvc); }
      return Ok(Some(linkedHostFunctions[idx]));
    }

    // -------------------------------------------------------------- guest functions for host functions

    /** `base` is what the guest allocator returned for 8 bytes. */
    method CreateGuestFunction(mem: Mem, symbol: string, base: u32) returns (r: Status<u32>)
      modifies this`linkedHostFunctions, this`routines, mem
      ensures Matches(mem, L.CreateGuestFunction(old(View(mem)), symbol, base), r)
    {
      var svc := |linkedHostFunctions| + L.SVC_LINKED_FUNCTIONS_BASE;
      linkedHostFunctions := linkedHostFunctions + [symbol];
      if svc >= 0x1000000 { return Panic(L.SvcTooLarge); }
      WriteAll(mem, base, [SVC_BASE + svc, RET]);
      routines := routines[base := symbol];
      return Ok(base);
    }

    method CreateProcAddress(p: L.Program, mem: Mem, symbol: string, base: u32) returns (r: Status<Option<u32>>)
      modifies this, mem
      ensures Matches(mem, L.CreateProcAddress(p, old(View(mem)), symbol, base), r)
    {
      if symbol !in p.hosts { return Ok(None); }
      if symbol in nonLazyHostFunctions { return Ok(Some(nonLazyHostFunctions[symbol])); }
      var f := CreateGuestFunction(mem, symbol, base);
      if f.Panic? { return Panic(f.why); }
      nonLazyHostFunctions := nonLazyHostFunctions[symbol := f.value];
      return Ok(Some(f.value));
    }
  }
}
