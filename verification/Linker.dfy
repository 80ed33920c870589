/**
 The dynamic linker's operations on guest code, as functions from one state to the next
 (src/dyld.rs:190-273, 409-462, 630-870). Dyld.dfy performs them by assignment.

 Host functions are identified by their symbols. Guest memory is a table of aligned words.
 */
module Linker {
  import opened Prelude
  import opened Arm

  // ---------------------------------------------------------------- binaries and stubs

  /** The three entry sizes of a symbol stub section: 4, 12 and 16 bytes. */
  datatype Form = Direct | Absolute | Pic

  function EntrySize(f: Form): nat {
    match f case Direct => 4 case Absolute => 12 case Pic => 16
  }

  datatype Section = Section(addr: u32, form: Form, symbols: seq<Option<string>>)

  function SizeOf(s: Section): nat { |s.symbols| * EntrySize(s.form) }

  datatype Binary = Binary(stubs: Option<Section>, lazyPointers: Option<u32>, exports: map<string, u32>)

  datatype Program = Program(bins: seq<Binary>, hosts: set<string>)

  /** One stub; `pic` is the distance from its section to the lazy pointers, 0 if there are none. */
  datatype Stub = Stub(addr: u32, form: Form, symbol: string, pic: u32)

  predicate InSection(b: Binary, pc: u32) {
    b.stubs.Some? && b.stubs.value.addr <= pc < b.stubs.value.addr + SizeOf(b.stubs.value)
  }

  /** The first binary whose stub section contains `pc`. */
  function FindBin(bins: seq<Binary>, pc: u32): (r: Option<Binary>)
    ensures r.Some? ==> r.value in bins && InSection(r.value, pc)
    ensures r.None? ==> forall b :: b in bins ==> !InSection(b, pc)
  {
    if bins == [] then None
    else if InSection(bins[0], pc) then Some(bins[0])
    else FindBin(bins[1..], pc)
  }

  function PicOffset(b: Binary): u32
    requires b.stubs.Some?
  {
    match b.lazyPointers case None => 0 case Some(a) => Add32(a, TWO32 - b.stubs.value.addr)
  }

  datatype Panic =
    | NoStub | NotAtEntry | NoSymbol
    | UnexpectedInstruction | StubChanged
    | SvcTooLarge | NoRoomForFlag
    | Unimplemented(symbol: string)
    | UnexpectedSvc

  datatype Located = At(stub: Stub) | Nowhere(why: Panic)

  function Locate(bins: seq<Binary>, pc: u32): Located {
    match FindBin(bins, pc)
    case None => Nowhere(NoStub)
    case Some(b) =>
      var s := b.stubs.value;
      var offset := pc - s.addr;
      if offset % EntrySize(s.form) != 0 then Nowhere(NotAtEntry)
      else
        match s.symbols[offset / EntrySize(s.form)]
        case None => Nowhere(NoSymbol)
        case Some(symbol) => At(Stub(pc, s.form, symbol, PicOffset(b)))
  }

  // ---------------------------------------------------------------- state

  /** `routines` is a history: where each guest function made for a host function lies. */
  datatype Linking = Linking(mem: Words, linked: seq<string>, nonLazy: map<string, u32>, routines: map<u32, string>)

  datatype Result<+T> = Done(state: Linking, value: T) | Failed(why: Panic)

  function Store(l: Linking, a: u32, w: u32): Linking {
    l.(mem := l.mem[a := w])
  }

  // ---------------------------------------------------------------- SVC numbers

  const SVC_LAZY_LINK: nat := 0
  const SVC_THREAD_EXIT: nat := 1
  const SVC_RETURN_TO_HOST: nat := 2
  const SVC_LINKED_FUNCTIONS_BASE: nat := 3
  const RET_FLAG: nat := 0x800000

  predicate HasRetFlag(svc: nat) { svc / RET_FLAG % 2 == 1 }

  function WithoutRetFlag(svc: nat): nat { if HasRetFlag(svc) then svc - RET_FLAG else svc }

  /** The index in `linked_host_functions` that an SVC number denotes, if it is not a reserved one. */
  function FunctionIndex(svc: nat): Option<nat> {
    if svc == SVC_LAZY_LINK || svc == RET_FLAG || svc == SVC_THREAD_EXIT || svc == SVC_RETURN_TO_HOST then None
    else if WithoutRetFlag(svc) < SVC_LINKED_FUNCTIONS_BASE then None
    else Some(WithoutRetFlag(svc) - SVC_LINKED_FUNCTIONS_BASE)
  }

  /** The number allocated to the function at `idx`; in a 4-byte stub it carries the flag. */
  function SvcFor(idx: nat, flag: bool): nat {
    idx + SVC_LINKED_FUNCTIONS_BASE + (if flag then RET_FLAG else 0)
  }

  /** An allocated number names the function it was allocated for exactly while it stays below the flag bit. */
  lemma SvcNamesItsFunctionIff(idx: nat)
    requires SvcFor(idx, false) < 0x1000000
    ensures FunctionIndex(SvcFor(idx, false)) == Some(idx) && !HasRetFlag(SvcFor(idx, false)) <==>
            idx + SVC_LINKED_FUNCTIONS_BASE < RET_FLAG
    ensures idx + SVC_LINKED_FUNCTIONS_BASE < RET_FLAG ==>
              FunctionIndex(SvcFor(idx, true)) == Some(idx) && HasRetFlag(SvcFor(idx, true)) &&
                SvcFor(idx, true) < 0x1000000
  {
    var svc := SvcFor(idx, false);
    if svc < RET_FLAG {
      assert svc / RET_FLAG == 0;
      assert (svc + RET_FLAG) / RET_FLAG == 1;
    } else {
      assert svc / RET_FLAG == 1;
    }
  }

  /** The 8388605th function linked from a 12- or 16-byte stub gets the number of the lazy linker instead. */
  lemma SvcNumbersRunOut()
    ensures SvcFor(0x7ffffd, false) == RET_FLAG && FunctionIndex(SvcFor(0x7ffffd, false)).None?
    ensures FunctionIndex(SvcFor(0x800000, false)) == Some(0)
  {
  }

  // ---------------------------------------------------------------- setting up stubs

  /** What a stub section holds in the binary; 4-byte stubs are not checked. */
  function OriginalInstructions(f: Form): seq<u32> {
    match f
    case Direct => []
    case Absolute => [LDR_R12_0, LDR_PC_R12]
    case Pic => [LDR_R12_4, ADD_R12_PC, LDR_PC_R12]
  }

  predicate HoldsAt(mem: Words, a: u32, ws: seq<u32>) {
    forall j :: 0 <= j < |ws| ==> Load(mem, Add32(a, 4 * j)) == ws[j]
  }

  function StoreAll(mem: Words, a: u32, ws: seq<u32>): Words
    decreases |ws|
  {
    if ws == [] then mem else StoreAll(mem, a, ws[..|ws| - 1])[Add32(a, 4 * (|ws| - 1)) := ws[|ws| - 1]]
  }

  /** The code `setup_lazy_linking` puts into a stub. */
  function LazyInstructions(f: Form): seq<u32> {
    match f
    case Direct => [SVC_BASE + RET_FLAG]
    case Absolute => [SVC_BASE + SVC_LAZY_LINK, RET]
    case Pic => [SVC_BASE + SVC_LAZY_LINK, RET, TRAP]
  }

  function SetupStub(mem: Words, a: u32, f: Form): Option<Words> {
    if HoldsAt(mem, a, OriginalInstructions(f)) then Some(StoreAll(mem, a, LazyInstructions(f))) else None
  }

  /** Sets up the first `n` stubs of a section; `None` where an instruction is not the expected one. */
  function SetupFirst(mem: Words, s: Section, n: nat): Option<Words>
    decreases n
  {
    if n == 0 then Some(mem)
    else
      match SetupFirst(mem, s, n - 1)
      case None => None
      case Some(m) => SetupStub(m, Add32(s.addr, (n - 1) * EntrySize(s.form)), s.form)
  }

  /** `setup_lazy_linking` for the first `n` binaries. */
  function SetupBins(mem: Words, bins: seq<Binary>, n: nat): Option<Words>
    requires n <= |bins|
    decreases n
  {
    if n == 0 then Some(mem)
    else
      match SetupBins(mem, bins, n - 1)
      case None => None
      case Some(m) => SetupBin(m, bins[n - 1])
  }

  function SetupBin(mem: Words, b: Binary): Option<Words> {
    match b.stubs case None => Some(mem) case Some(s) => SetupFirst(mem, s, |s.symbols|)
  }

  // ---------------------------------------------------------------- lazy linking

  /** The stub's instructions once it is to jump through its pointer. */
  function RestoredInstructions(s: Stub): seq<u32> {
    if s.form.Direct? then
      OffsetIntoInstruction(s.pic);
      [Or(s.pic, LDR_PC_RELATIVE)]
    else OriginalInstructions(s.form)
  }

  /** Where the restored stub, with its data words in `mem`, finds the address to jump to. */
  function SlotOf(mem: Words, s: Stub): u32 {
    match s.form
    case Absolute => Load(mem, Add32(s.addr, 8))
    case Direct => Add32(s.addr, Load(mem, s.addr) % 0x1000 + 8)
    case Pic => Add32(s.addr, Load(mem, Add32(s.addr, 12)) + 12)
  }

  function LinkByRestoring(l: Linking, s: Stub, address: u32): Linking {
    var m := StoreAll(l.mem, s.addr, RestoredInstructions(s));
    l.(mem := m[SlotOf(m, s) := address])
  }

  function FirstExport(bins: seq<Binary>, symbol: string): Option<u32> {
    if bins == [] then None
    else if symbol in bins[0].exports then Some(bins[0].exports[symbol])
    else FirstExport(bins[1..], symbol)
  }

  /** The value is the host function to call now, or `None` to run the stub again. */
  function DoLazyLink(p: Program, l: Linking, pc: u32): Result<Option<string>> {
    match Locate(p.bins, pc)
    case Nowhere(why) => Failed(why)
    case At(s) =>
      if s.symbol in l.nonLazy then Done(LinkByRestoring(l, s, l.nonLazy[s.symbol]), None)
      else if s.symbol in p.hosts then
        var svc := SvcFor(|l.linked|, s.form.Direct?);
        if s.form.Direct? && |l.linked| + SVC_LINKED_FUNCTIONS_BASE >= RET_FLAG then Failed(NoRoomForFlag)
        else if svc >= 0x1000000 then Failed(SvcTooLarge)
        else
          var l1 := Store(l.(linked := l.linked + [s.symbol]), pc, SVC_BASE + svc);
          if !s.form.Direct? && Load(l1.mem, Add32(pc, 4)) != RET then Failed(StubChanged)
          else Done(l1, Some(s.symbol))
      else
        match FirstExport(p.bins, s.symbol)
        case Some(address) => Done(LinkByRestoring(l, s, address), None)
        case None => Failed(Unimplemented(s.symbol))
  }

  function GetSvcHandler(p: Program, l: Linking, pc: u32, svc: nat): Result<Option<string>> {
    if svc == SVC_LAZY_LINK || svc == RET_FLAG then DoLazyLink(p, l, pc)
    else
      match FunctionIndex(svc)
      case None => Failed(UnexpectedSvc)
      case Some(idx) => if idx < |l.linked| then Done(l, Some(l.linked[idx])) else Failed(UnexpectedSvc)
  }

  // ---------------------------------------------------------------- guest functions for host functions

  /** `base` is the address of the 8 bytes the allocator returned. */
  function CreateGuestFunction(l: Linking, symbol: string, base: u32): Result<u32> {
    if SvcFor(|l.linked|, false) >= 0x1000000 then Failed(SvcTooLarge)
    else
      var code := [SVC_BASE + SvcFor(|l.linked|, false), RET];
      Done(l.(linked := l.linked + [symbol], mem := StoreAll(l.mem, base, code),
        routines := l.routines[base := symbol]), base)
  }

  /** `None` for a symbol no host library has. */
  function CreateProcAddress(p: Program, l: Linking, symbol: string, base: u32): Result<Option<u32>> {
    if symbol !in p.hosts then Done(l, None)
    else if symbol in l.nonLazy then Done(l, Some(l.nonLazy[symbol]))
    else
      match CreateGuestFunction(l, symbol, base)
      case Failed(why) => Failed(why)
      case Done(l1, f) => Done(l1.(nonLazy := l1.nonLazy[symbol := f]), Some(f))
  }
}
