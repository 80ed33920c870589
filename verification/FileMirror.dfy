/** The guest tree and the host agree after every operation (src/fs.rs:72-110, 719-755, 927-976, 979-1243). */
module FileMirror {
  import opened Prelude
  import opened Paths
  import opened FileSystem

  /** The host directory behind the writeable guest directory at `cs`. */
  function DirHost(n: Node, cs: seq<string>): Option<HostPath> {
    match LookAt(n, cs)
    case Some(DirLook(_, h)) => h
    case _ => None
  }

  /** Entry `name` of the writeable directory at `cs`, backed by `h`, is there exactly when and as it is on the host. */
  predicate EntryMirrors(fs: Fs, cs: seq<string>, h: HostPath, name: string) {
    match LookAt(fs.root, cs + [name])
    case None => h + [name] !in fs.host
    case Some(FileLook(l, w)) => l == OnHost(h + [name]) && w && h + [name] in fs.host &&
      fs.host[h + [name]] == HostFile
    case Some(DirLook(_, sub)) => sub == Some(h + [name])
  }

  ghost predicate DirMirrors(fs: Fs, cs: seq<string>) {
    DirHost(fs.root, cs).Some? ==>
      var h := DirHost(fs.root, cs).value;
      h in fs.host && fs.host[h] == HostDir && forall name: string :: EntryMirrors(fs, cs, h, name)
  }

  /** Writeable files are entries of writeable directories. */
  predicate FileMirrors(fs: Fs, cs: seq<string>) {
    match LookAt(fs.root, cs)
    case Some(FileLook(_, true)) => cs != [] && DirHost(fs.root, Parent(cs)).Some?
    case _ => true
  }

  /** Everything on the host lies in a directory. */
  ghost predicate HostIsTree(host: Host) {
    forall q :: q in host && q != [] ==> Parent(q) in host && host[Parent(q)] == HostDir
  }

  ghost predicate OneGuestDir(n: Node) {
    forall cs: seq<string>, ds: seq<string> :: DirHost(n, cs).Some? && DirHost(n, cs) == DirHost(n, ds) ==> cs == ds
  }

  /** The writeable part of the guest tree is exactly the host's structure under it. */
  ghost predicate Mirrors(fs: Fs) {
    && HostIsTree(fs.host) && OneGuestDir(fs.root)
    && (forall cs: seq<string> :: DirMirrors(fs, cs))
    && (forall cs: seq<string> :: FileMirrors(fs, cs))
  }

  // ---------------------------------------------------------------- changing one entry

  /** `fs1` is `fs` with one entry of a writeable directory changed, in the guest tree and on the host alike. */
  ghost predicate EntryChanged(fs: Fs, fs1: Fs, ps: seq<string>, name: string, entry: Option<Node>) {
    && DirHost(fs.root, ps).Some? && Leaf(entry) && Leaf(At(fs.root, ps + [name]))
    && fs1.root == SetEntry(fs.root, ps, name, entry)
    && var p := DirHost(fs.root, ps).value + [name];
    && (forall q :: q != p ==> (q in fs1.host <==> q in fs.host) && (q in fs.host ==> fs1.host[q] == fs.host[q]))
    && match entry
       case None => p !in fs1.host
       case Some(File(l, w)) => l == OnHost(p) && w && p in fs1.host && fs1.host[p] == HostFile
       case Some(Dir(_, h)) => h == Some(p) && p in fs1.host && fs1.host[p] == HostDir
  }

  lemma HostPathsDiffer(h: HostPath, a: string, g: HostPath, b: string)
    ensures h + [a] == g + [b] <==> h == g && a == b
    ensures Parent(h + [a]) == h
  {
    assert (h + [a])[|h|] == a && (g + [b])[|g|] == b;
    assert (h + [a])[..|h|] == h && (g + [b])[..|g|] == g;
  }

  lemma PathsDiffer(ps: seq<string>, a: string, cs: seq<string>, b: string)
    ensures ps + [a] == cs + [b] <==> ps == cs && a == b
    ensures ps + [a] != ps
  {
    HostPathsDiffer(ps, a, cs, b);
    assert |ps + [a]| == |ps| + 1;
  }

  /** The host has nothing below a leaf of a writeable directory. */
  lemma {:induction false} NothingBelow(fs: Fs, ps: seq<string>, name: string)
    requires Mirrors(fs) && DirHost(fs.root, ps).Some? && Leaf(At(fs.root, ps + [name]))
    ensures HostEmpty(fs.host, DirHost(fs.root, ps).value + [name])
  {
    var h := DirHost(fs.root, ps).value;
    var p := h + [name];
    var at := ps + [name];
    assert DirMirrors(fs, ps) && EntryMirrors(fs, ps, h, name);
    forall q | q in fs.host && q != [] ensures Parent(q) != p {
      assert q == Parent(q) + [Name(q)];
      if DirHost(fs.root, at) == Some(p) { NothingInEmptyDir(fs, at, p, Name(q)); }
    }
  }

  lemma {:induction false} NothingInEmptyDir(fs: Fs, at: seq<string>, p: HostPath, c: string)
    requires DirMirrors(fs, at) && DirHost(fs.root, at) == Some(p) && Leaf(At(fs.root, at))
    ensures p + [c] !in fs.host
  {
    assert EntryMirrors(fs, at, p, c);
    AtAppend(fs.root, at, c);
  }

  lemma HostStaysTree(fs: Fs, fs1: Fs, ps: seq<string>, name: string, entry: Option<Node>)
    requires Mirrors(fs) && EntryChanged(fs, fs1, ps, name, entry)
    ensures HostIsTree(fs1.host)
  {
    hide SetEntry, LookAt;
    var h := DirHost(fs.root, ps).value;
    var p := h + [name];
    NothingBelow(fs, ps, name);
    assert DirMirrors(fs, ps);
    HostPathsDiffer(h, name, h, name);
    assert p != h;
    forall q | q in fs1.host && q != [] ensures Parent(q) in fs1.host && fs1.host[Parent(q)] == HostDir {
      if q != p { assert q in fs.host; }
    }
  }

  /** What is seen at a place after the change. */
  lemma LookAfter(fs: Fs, fs1: Fs, ps: seq<string>, name: string, entry: Option<Node>, cs: seq<string>)
    requires EntryChanged(fs, fs1, ps, name, entry)
    ensures cs == ps ==> DirHost(fs1.root, cs) == DirHost(fs.root, cs) && LookAt(fs1.root, cs).Some?
    ensures cs == ps + [name] ==> LookAt(fs1.root, cs) == if entry.None? then None else LookAt(entry.value, [])
    ensures cs != ps && cs != ps + [name] ==> LookAt(fs1.root, cs) == LookAt(fs.root, cs)
  {
    LookAfterSetEntry(fs.root, ps, name, entry, cs);
    PathsDiffer(ps, name, ps, name);
  }

  lemma DirHostAfter(fs: Fs, fs1: Fs, ps: seq<string>, name: string, entry: Option<Node>, cs: seq<string>)
    requires EntryChanged(fs, fs1, ps, name, entry)
    ensures DirHost(fs1.root, cs) ==
            if cs == ps + [name] then
              (if entry.Some? && entry.value.Dir? then Some(DirHost(fs.root, ps).value + [name]) else None)
            else DirHost(fs.root, cs)
  {
    LookAfter(fs, fs1, ps, name, entry, cs);
    PathsDiffer(ps, name, ps, name);
  }

  lemma StaysOneGuestDir(fs: Fs, fs1: Fs, ps: seq<string>, name: string, entry: Option<Node>)
    requires Mirrors(fs) && EntryChanged(fs, fs1, ps, name, entry)
    ensures OneGuestDir(fs1.root)
  {
    hide SetEntry, LookAt;
    var h := DirHost(fs.root, ps).value;
    assert DirMirrors(fs, ps) && EntryMirrors(fs, ps, h, name);
    forall cs: seq<string>, ds: seq<string> | DirHost(fs1.root, cs).Some? &&
      DirHost(fs1.root, cs) == DirHost(fs1.root, ds) ensures cs == ds
    {
      DirHostAfter(fs, fs1, ps, name, entry, cs);
      DirHostAfter(fs, fs1, ps, name, entry, ds);
      if cs != ds { NoOtherDirThere(fs, ps, name, if cs == ps + [name] then ds else cs); }
    }
  }

  /** No writeable directory elsewhere is backed by this entry's host path. */
  lemma NoOtherDirThere(fs: Fs, ps: seq<string>, name: string, cs: seq<string>)
    requires Mirrors(fs) && DirHost(fs.root, ps).Some? && cs != ps + [name]
    ensures DirHost(fs.root, cs) != Some(DirHost(fs.root, ps).value + [name])
  {
    var h := DirHost(fs.root, ps).value;
    var p := h + [name];
    assert DirMirrors(fs, ps) && EntryMirrors(fs, ps, h, name) && DirMirrors(fs, cs);
    assert DirHost(fs.root, cs) == Some(p) ==> DirHost(fs.root, ps + [name]) == Some(p);
  }

  lemma EntryStays(fs: Fs, fs1: Fs, ps: seq<string>, name: string, entry: Option<Node>, cs: seq<string>, c: string)
    requires Mirrors(fs) && EntryChanged(fs, fs1, ps, name, entry) && cs != ps + [name] && DirHost(fs.root, cs).Some?
    ensures EntryMirrors(fs1, cs, DirHost(fs.root, cs).value, c)
  {
    hide SetEntry;
    var h := DirHost(fs.root, ps).value;
    var g := DirHost(fs.root, cs).value;
    assert DirMirrors(fs, cs) && EntryMirrors(fs, cs, g, c);
    HostPathsDiffer(h, name, g, c);
    PathsDiffer(ps, name, cs, c);
    LookAfter(fs, fs1, ps, name, entry, cs + [c]);
    if cs + [c] == ps {
      DirHostAfter(fs, fs1, ps, name, entry, ps);
      assert LookAt(fs1.root, ps).value.DirLook?;
    }
  }

  lemma DirStays(fs: Fs, fs1: Fs, ps: seq<string>, name: string, entry: Option<Node>, cs: seq<string>)
    requires Mirrors(fs) && EntryChanged(fs, fs1, ps, name, entry)
    ensures DirMirrors(fs1, cs)
  {
    hide SetEntry, LookAt, EntryMirrors;
    DirHostAfter(fs, fs1, ps, name, entry, cs);
    if DirHost(fs1.root, cs).Some? {
      var h := DirHost(fs.root, ps).value;
      if cs == ps + [name] {
        forall c: string ensures EntryMirrors(fs1, cs, h + [name], c) {
          NewDirIsEmpty(fs, fs1, ps, name, entry, c);
        }
      } else {
        var g := DirHost(fs.root, cs).value;
        assert DirMirrors(fs, cs);
        NoOtherDirThere(fs, ps, name, cs);
        forall c: string ensures EntryMirrors(fs1, cs, g, c) { EntryStays(fs, fs1, ps, name, entry, cs, c); }
      }
    }
  }

  lemma NewDirIsEmpty(fs: Fs, fs1: Fs, ps: seq<string>, name: string, entry: Option<Node>, c: string)
    requires Mirrors(fs) && EntryChanged(fs, fs1, ps, name, entry) && entry.Some? && entry.value.Dir?
    ensures EntryMirrors(fs1, ps + [name], DirHost(fs.root, ps).value + [name], c)
  {
    hide SetEntry;
    var h := DirHost(fs.root, ps).value;
    var p := h + [name];
    NothingBelow(fs, ps, name);
    HostPathsDiffer(p, c, p, c);
    assert p + [c] !in fs.host && p + [c] != p;
    LookAfter(fs, fs1, ps, name, entry, ps + [name] + [c]);
    AtAppend(fs.root, ps + [name], c);
    PathsDiffer(ps + [name], c, ps, name);
    assert |ps + [name] + [c]| == |ps| + 2;
  }

  lemma FileStays(fs: Fs, fs1: Fs, ps: seq<string>, name: string, entry: Option<Node>, cs: seq<string>)
    requires Mirrors(fs) && EntryChanged(fs, fs1, ps, name, entry)
    ensures FileMirrors(fs1, cs)
  {
    hide SetEntry;
    assert FileMirrors(fs, cs);
    LookAfter(fs, fs1, ps, name, entry, cs);
    PathsDiffer(ps, name, ps, name);
    if cs != [] {
      DirHostAfter(fs, fs1, ps, name, entry, Parent(cs));
      if cs == ps + [name] { assert Parent(cs) == ps; }
      if Parent(cs) == ps + [name] {
        AtAppend(fs.root, ps + [name], Name(cs));
        assert cs == ps + [name] + [Name(cs)];
      }
    }
  }

  lemma ChangedEntryMirrors(fs: Fs, fs1: Fs, ps: seq<string>, name: string, entry: Option<Node>)
    requires Mirrors(fs) && EntryChanged(fs, fs1, ps, name, entry)
    ensures Mirrors(fs1)
  {
    hide EntryChanged, DirMirrors, FileMirrors, HostIsTree, OneGuestDir;
    assert Mirrors(fs);
    HostStaysTree(fs, fs1, ps, name, entry);
    StaysOneGuestDir(fs, fs1, ps, name, entry);
    forall cs: seq<string> ensures DirMirrors(fs1, cs) && FileMirrors(fs1, cs) {
      DirStays(fs, fs1, ps, name, entry, cs);
      FileStays(fs, fs1, ps, name, entry, cs);
    }
  }

  /** Read-only directories neither gain nor lose entries, nor become writeable. */
  ghost predicate ReadOnlyKept(a: Node, b: Node) {
    forall cs: seq<string> ::
      LookAt(a, cs).Some? && LookAt(a, cs).value.DirLook? && LookAt(a, cs).value.host.None? ==>
        LookAt(b, cs) == LookAt(a, cs)
  }

  lemma ChangedEntryKeepsReadOnly(fs: Fs, fs1: Fs, ps: seq<string>, name: string, entry: Option<Node>)
    requires Mirrors(fs) && EntryChanged(fs, fs1, ps, name, entry)
    ensures ReadOnlyKept(fs.root, fs1.root)
  {
    hide SetEntry;
    var h := DirHost(fs.root, ps).value;
    assert DirMirrors(fs, ps) && EntryMirrors(fs, ps, h, name);
    forall cs: seq<string> | LookAt(fs.root, cs).Some? && LookAt(fs.root, cs).value.DirLook? &&
      LookAt(fs.root, cs).value.host.None?
      ensures LookAt(fs1.root, cs) == LookAt(fs.root, cs)
    {
      LookAfter(fs, fs1, ps, name, entry, cs);
    }
  }

  // ---------------------------------------------------------------- the operations

  lemma EntryOfDir(n: Node, cs: seq<string>)
    requires cs != [] && HasDir(n, Parent(cs))
    ensures At(n, cs) == Child(At(n, Parent(cs)).value, Name(cs)) && Parent(cs) + [Name(cs)] == cs
    ensures DirHost(n, Parent(cs)) == At(n, Parent(cs)).value.host
  {
    AtParent(n, cs);
  }

  /** The invariant survives, and read-only directories are as they were. */
  ghost predicate Kept(a: Fs, b: Fs) {
    Mirrors(b) && ReadOnlyKept(a.root, b.root)
  }

  /** A writeable file is where its directory's host path and its name say. */
  lemma WriteableFileIs(fs: Fs, cs: seq<string>)
    requires Mirrors(fs) && cs != [] && At(fs.root, cs).Some? && At(fs.root, cs).value.File? &&
             At(fs.root, cs).value.writeable
    ensures HasDir(fs.root, Parent(cs)) && DirHost(fs.root, Parent(cs)).Some?
    ensures var p := DirHost(fs.root, Parent(cs)).value + [Name(cs)];
            At(fs.root, cs).value.location == OnHost(p) && p in fs.host && fs.host[p] == HostFile
  {
    assert FileMirrors(fs, cs);
    var h := DirHost(fs.root, Parent(cs)).value;
    assert DirMirrors(fs, Parent(cs)) && EntryMirrors(fs, Parent(cs), h, Name(cs));
    assert Parent(cs) + [Name(cs)] == cs;
  }

  /** A name that is free in a writeable directory is free on the host. */
  lemma FreeName(fs: Fs, cs: seq<string>)
    requires Mirrors(fs) && cs != [] && HasDir(fs.root, Parent(cs)) && At(fs.root, Parent(cs)).value.host.Some?
    requires Name(cs) !in At(fs.root, Parent(cs)).value.children
    ensures var p := At(fs.root, Parent(cs)).value.host.value + [Name(cs)];
            p !in fs.host && HostCanCreate(fs.host, p) && Parent(p) == At(fs.root, Parent(cs)).value.host.value
  {
    EntryOfDir(fs.root, cs);
    var h := DirHost(fs.root, Parent(cs)).value;
    assert DirMirrors(fs, Parent(cs)) && EntryMirrors(fs, Parent(cs), h, Name(cs));
    HostPathsDiffer(h, Name(cs), h, Name(cs));
  }

  /** Opening changes nothing unless it creates a file where there was nothing, in a writeable directory. */
  lemma {:induction false} OpenIs(fs: Fs, cs: seq<string>, o: Options)
    ensures var r := OpenWithOptions(fs, cs, o);
            && (r.Refused? ==> r.fs == fs)
            && (r.Ok? && At(fs.root, cs).Some? ==> r.fs == fs)
            && (r.Ok? && At(fs.root, cs).Some? && r.value.TheFile? && r.value.location.OnHost? ==>
               HostPathFor(fs, cs) == Some(r.value.location.path))
            && (r.Ok? && At(fs.root, cs).None? ==>
               Creates(fs, cs, r.fs) && r.value == TheFile(OnHost(NewHostPath(fs, cs))))
            && (r == Panic(HostError) <==>
                  && HostTarget(fs, cs, o).Some?
                  && !(Sensible(o) && (if At(fs.root, cs).Some? then IsHostFile(fs.host, HostTarget(fs, cs, o).value)
                                       else HostCanCreate(fs.host, HostTarget(fs, cs, o).value))))
  {
    if cs != [] && HasDir(fs.root, Parent(cs)) { EntryOfDir(fs.root, cs); }
  }

  /** There is room for a new entry at `cs`, in a writeable directory. */
  predicate CanCreate(fs: Fs, cs: seq<string>) {
    cs != [] && HasDir(fs.root, Parent(cs)) && At(fs.root, Parent(cs)).value.host.Some? &&
      Name(cs) !in At(fs.root, Parent(cs)).value.children
  }

  function NewHostPath(fs: Fs, cs: seq<string>): HostPath
    requires CanCreate(fs, cs)
  {
    At(fs.root, Parent(cs)).value.host.value + [Name(cs)]
  }

  /** The host file that an open asks the host for, if it gets that far. */
  function HostTarget(fs: Fs, cs: seq<string>, o: Options): Option<HostPath> {
    if ((o.truncate || o.create) && !o.write && !o.append) || cs == [] || !HasDir(fs.root, Parent(cs)) then None
    else
      match At(fs.root, cs)
      case Some(File(OnHost(p), writeable)) => if writeable || !(o.append || o.write) then Some(p) else None
      case Some(_) => None
      case None => if o.create && CanCreate(fs, cs) && '/' !in Name(cs) then Some(NewHostPath(fs, cs)) else None
  }

  /** A read-only file of the guest that is no longer on the host. */
  predicate Vanished(fs: Fs, cs: seq<string>) {
    match At(fs.root, cs)
    case Some(File(OnHost(p), false)) => !IsHostFile(fs.host, p)
    case _ => false
  }

  predicate Creates(fs: Fs, cs: seq<string>, fs1: Fs) {
    CanCreate(fs, cs) &&
    fs1 == Fs(SetEntry(fs.root, Parent(cs), Name(cs), Some(File(OnHost(NewHostPath(fs, cs)), true))),
      fs.host[NewHostPath(fs, cs) := HostFile])
  }

  lemma {:induction false} CreatedFile(fs: Fs, cs: seq<string>, fs1: Fs)
    requires Mirrors(fs) && Creates(fs, cs, fs1)
    ensures Kept(fs, fs1) && HostPathFor(fs, cs) == Some(NewHostPath(fs, cs)) == HostPathFor(fs1, cs)
    ensures EntryChanged(fs, fs1, Parent(cs), Name(cs), Some(File(OnHost(NewHostPath(fs, cs)), true)))
  {
    hide Mirrors, ReadOnlyKept, SetEntry;
    EntryOfDir(fs.root, cs);
    FreeName(fs, cs);
    var entry := Some(File(OnHost(NewHostPath(fs, cs)), true));
    ChangedEntryMirrors(fs, fs1, Parent(cs), Name(cs), entry);
    ChangedEntryKeepsReadOnly(fs, fs1, Parent(cs), Name(cs), entry);
    LookAfter(fs, fs1, Parent(cs), Name(cs), entry, cs);
  }

  /**
   Opening, with or without creating: the host agrees, and a created file is where `host_path_for`
   said it would be. The host refuses exactly what it always refuses, and read-only files that
   vanished from it.
   */
  lemma {:induction false} OpenKeeps(fs: Fs, cs: seq<string>, o: Options)
    requires Mirrors(fs)
    ensures var r := OpenWithOptions(fs, cs, o);
            && (r.Ok? ==> Kept(fs, r.fs))
            && (r.Ok? && r.value.TheFile? && r.value.location.OnHost? ==>
                  HostPathFor(fs, cs) == Some(r.value.location.path) == HostPathFor(r.fs, cs))
            && (r.Refused? ==> r.fs == fs)
            && (r == Panic(HostError) <==> HostTarget(fs, cs, o).Some? && (!Sensible(o) || Vanished(fs, cs)))
  {
    hide OpenWithOptions, Mirrors, ReadOnlyKept, Creates, HostPathFor;
    OpenIs(fs, cs, o);
    ReadOnlyReflexive(fs);
    if CanCreate(fs, cs) { FreeName(fs, cs); }
    if HostTarget(fs, cs, o).Some? && At(fs.root, cs).Some? && At(fs.root, cs).value.writeable {
      WriteableFileIs(fs, cs);
    }
    var r := OpenWithOptions(fs, cs, o);
    if r.Ok? && At(fs.root, cs).None? { CreatedFile(fs, cs, r.fs); }
  }

  ghost predicate DirsStay(a: Node, b: Node) {
    forall ds: seq<string> :: HasDir(a, ds) ==> HasDir(b, ds)
  }

  ghost predicate NoNewFiles(a: Node, b: Node) {
    forall ds: seq<string> :: At(b, ds).Some? && At(b, ds).value.File? ==> At(a, ds).Some? && At(a, ds).value.File?
  }

  lemma CreatedDir(fs: Fs, fs1: Fs, ps: seq<string>, name: string)
    requires Mirrors(fs) && DirHost(fs.root, ps).Some?
    requires EntryChanged(fs, fs1, ps, name, Some(Dir(map[], Some(DirHost(fs.root, ps).value + [name])))) &&
             At(fs.root, ps + [name]).None?
    ensures Kept(fs, fs1) && DirsStay(fs.root, fs1.root) && NoNewFiles(fs.root, fs1.root) &&
            HasDir(fs1.root, ps + [name])
  {
    hide SetEntry, EntryChanged, Mirrors, ReadOnlyKept;
    var entry := Some(Dir(map[], Some(DirHost(fs.root, ps).value + [name])));
    ChangedEntryMirrors(fs, fs1, ps, name, entry);
    ChangedEntryKeepsReadOnly(fs, fs1, ps, name, entry);
    LookAfter(fs, fs1, ps, name, entry, ps + [name]);
    forall ds: seq<string>
      ensures HasDir(fs.root, ds) ==> HasDir(fs1.root, ds)
      ensures At(fs1.root, ds).Some? && At(fs1.root, ds).value.File? ==>
              At(fs.root, ds).Some? && At(fs.root, ds).value.File?
    {
      LookAfter(fs, fs1, ps, name, entry, ds);
      DirHostAfter(fs, fs1, ps, name, entry, ds);
    }
  }

  predicate MakesDir(fs: Fs, cs: seq<string>, fs1: Fs) {
    CanCreate(fs, cs) &&
    fs1 == Fs(SetEntry(fs.root, Parent(cs), Name(cs), Some(Dir(map[], Some(NewHostPath(fs, cs))))),
      fs.host[NewHostPath(fs, cs) := HostDir])
  }

  lemma {:induction false} CreateDirIs(fs: Fs, cs: seq<string>)
    ensures var r := CreateDir(fs, cs);
            && !r.Refused?
            && (r.Ok? && r.value.Some? ==> r.fs == fs)
            && (r.Ok? && r.value.None? ==> MakesDir(fs, cs, r.fs) && At(fs.root, cs).None?)
            && (r.Panic? && r.why == HostError ==>
                  CanCreate(fs, cs) && (NewHostPath(fs, cs) in fs.host || !HostCanCreate(fs.host, NewHostPath(fs, cs))))
  {
    if cs != [] && HasDir(fs.root, Parent(cs)) { EntryOfDir(fs.root, cs); }
  }

  lemma {:induction false} CreateDirKeeps(fs: Fs, cs: seq<string>)
    requires Mirrors(fs)
    ensures var r := CreateDir(fs, cs);
            && (r.Ok? ==> Kept(fs, r.fs) && DirsStay(fs.root, r.fs.root) && NoNewFiles(fs.root, r.fs.root))
            && (r.Ok? && r.value.Some? ==> r.fs == fs)
            && (r.Ok? && r.value.None? ==> HasDir(r.fs.root, cs) && At(fs.root, cs).None? && cs != [])
            && !r.Refused? && (r.Panic? ==> r.why != HostError)
  {
    hide CreateDir, Mirrors, ReadOnlyKept, EntryChanged, DirsStay, NoNewFiles, SetEntry;
    CreateDirIs(fs, cs);
    NothingMoves(fs);
    if CanCreate(fs, cs) { FreeName(fs, cs); }
    var r := CreateDir(fs, cs);
    if r.Ok? && r.value.None? {
      EntryOfDir(fs.root, cs);
      CreationChangesEntry(fs, r.fs, cs);
      CreatedDir(fs, r.fs, Parent(cs), Name(cs));
    }
  }

  lemma NothingMoves(fs: Fs)
    ensures ReadOnlyKept(fs.root, fs.root) && DirsStay(fs.root, fs.root) && NoNewFiles(fs.root, fs.root)
  {
  }

  lemma {:induction false} CreationChangesEntry(fs: Fs, fs1: Fs, cs: seq<string>)
    requires MakesDir(fs, cs, fs1) && At(fs.root, cs).None? && Parent(cs) + [Name(cs)] == cs
    requires DirHost(fs.root, Parent(cs)) == At(fs.root, Parent(cs)).value.host
    ensures EntryChanged(fs, fs1, Parent(cs), Name(cs),
            Some(Dir(map[], Some(DirHost(fs.root, Parent(cs)).value + [Name(cs)]))))
  {
  }

  lemma RemoveKeeps(fs: Fs, cs: seq<string>)
    requires Mirrors(fs)
    ensures var r := Remove(fs, cs);
            if r.Ok? then Kept(fs, r.fs) && At(r.fs.root, cs).None? else r == Refused(fs)
  {
    if cs != [] && HasDir(fs.root, Parent(cs)) {
      EntryOfDir(fs.root, cs);
      var dir := At(fs.root, Parent(cs)).value;
      if dir.host.Some? && Name(cs) in dir.children {
        RemovalChangesEntry(fs, cs);
        if Remove(fs, cs).Ok? {
          var fs1 := Remove(fs, cs).fs;
          ChangedEntryMirrors(fs, fs1, Parent(cs), Name(cs), None);
          ChangedEntryKeepsReadOnly(fs, fs1, Parent(cs), Name(cs), None);
          LookAfter(fs, fs1, Parent(cs), Name(cs), None, cs);
        }
      }
    }
  }

  lemma RemovalChangesEntry(fs: Fs, cs: seq<string>)
    requires Mirrors(fs) && cs != [] && HasDir(fs.root, Parent(cs))
    requires At(fs.root, Parent(cs)).value.host.Some? && Name(cs) in At(fs.root, Parent(cs)).value.children
    ensures match Remove(fs, cs)
            case Ok(fs1, _) => EntryChanged(fs, fs1, Parent(cs), Name(cs), None)
            case Refused(fs1) => fs1 == fs
            case Panic(_) => false
  {
    EntryOfDir(fs.root, cs);
    var h := DirHost(fs.root, Parent(cs)).value;
    var name := Name(cs);
    assert DirMirrors(fs, Parent(cs)) && EntryMirrors(fs, Parent(cs), h, name);
    var node := At(fs.root, cs).value;
    if node.Dir? && node.children == map[] {
      assert DirMirrors(fs, cs);
      NothingBelow(fs, Parent(cs), name);
    }
  }

  lemma {:induction false} MoveChangesEntry(fs: Fs, from: seq<string>, f: HostPath, t: HostPath)
    requires Mirrors(fs) && from != [] && HasDir(fs.root, Parent(from)) && DirHost(fs.root, Parent(from)).Some?
    requires f == DirHost(fs.root, Parent(from)).value + [Name(from)] && IsHostFile(fs.host, f)
    requires t != f && IsHostFile(fs.host, t) && HostCanCreate(fs.host, t)
    requires At(fs.root, from).Some? && At(fs.root, from).value.File?
    ensures var r := MoveFile(fs, from, f, t, true); r.Ok? && EntryChanged(fs, r.fs, Parent(from), Name(from), None)
  {
    hide SetEntry, Mirrors;
    assert Parent(from) + [Name(from)] == from;
  }

  /** Moving a file: its entry goes, on both sides, if the target is another one. */
  lemma MoveKeeps(fs: Fs, from: seq<string>, to: seq<string>, hostOk: bool)
    requires Mirrors(fs) && from != to && from != [] && to != []
    requires At(fs.root, from).Some? && At(fs.root, from).value.File? && At(fs.root, from).value.writeable
    requires At(fs.root, to).Some? && At(fs.root, to).value.File? && At(fs.root, to).value.writeable
    ensures var f, t := At(fs.root, from).value.location, At(fs.root, to).value.location;
            && f.OnHost? && t.OnHost?
            && var r := MoveFile(fs, from, f.path, t.path, hostOk);
            if hostOk then r.Ok? && Kept(fs, r.fs) && At(r.fs.root, from).None? &&
              LookAt(r.fs.root, to) == LookAt(fs.root, to)
            else r == Refused(fs)
  {
    WriteableFileIs(fs, from);
    WriteableFileIs(fs, to);
    EntryOfDir(fs.root, from);
    EntryOfDir(fs.root, to);
    var ps, name := Parent(from), Name(from);
    var h, g := DirHost(fs.root, ps).value, DirHost(fs.root, Parent(to)).value;
    HostPathsDiffer(h, name, g, Name(to));
    assert DirMirrors(fs, Parent(to));
    if hostOk {
      hide Mirrors, EntryChanged, SetEntry, ReadOnlyKept;
      MoveChangesEntry(fs, from, h + [name], g + [Name(to)]);
      var fs1 := MoveFile(fs, from, h + [name], g + [Name(to)], hostOk).fs;
      ChangedEntryMirrors(fs, fs1, ps, name, None);
      ChangedEntryKeepsReadOnly(fs, fs1, ps, name, None);
      LookAfter(fs, fs1, ps, name, None, from);
      LookAfter(fs, fs1, ps, name, None, to);
    }
  }

  lemma ReadOnlyTransitive(a: Node, b: Node, c: Node)
    requires ReadOnlyKept(a, b) && ReadOnlyKept(b, c)
    ensures ReadOnlyKept(a, c)
  {
  }

  /** Renaming onto another path, created first if it does not exist. */
  lemma RenameKeeps(fs: Fs, from: seq<string>, to: seq<string>, hostOk: bool)
    requires Mirrors(fs) && fs.root.Dir? && from != to
    ensures var r := Rename(fs, from, to, hostOk);
            && (r.Ok? ==>
                 hostOk && At(r.fs.root, from).None? && At(r.fs.root, to).Some? && At(r.fs.root, to).value.File?)
            && (if r.Panic? then r.why != HostError else Kept(fs, r.fs))
  {
    hide SetEntry, Mirrors, ReadOnlyKept, MoveFile, OpenWithOptions;
    ReadOnlyReflexive(fs);
    if At(fs.root, from).Some? && At(fs.root, from).value.File? && At(fs.root, from).value.location.OnHost? &&
      At(fs.root, from).value.writeable {
      var fs1 := fs;
      if At(fs.root, to).None? {
        OpenKeeps(fs, to, CREATING);
        OpenLeavesOthers(fs, to, from);
        if !OpenWithOptions(fs, to, CREATING).Ok? { return; }
        fs1 := OpenWithOptions(fs, to, CREATING).fs;
      }
      if At(fs1.root, to).Some? && At(fs1.root, to).value.File? && At(fs1.root, to).value.location.OnHost? &&
        At(fs1.root, to).value.writeable {
        assert from != [] && to != [];
        MoveKeeps(fs1, from, to, hostOk);
        ReadOnlyThrough(fs, fs1, MoveFile(fs1, from, At(fs1.root, from).value.location.path,
          At(fs1.root, to).value.location.path, hostOk));
      }
    }
  }

  lemma ReadOnlyReflexive(fs: Fs)
    ensures ReadOnlyKept(fs.root, fs.root)
  {
  }

  lemma ReadOnlyThrough(a: Fs, b: Fs, r: Outcome<()>)
    requires ReadOnlyKept(a.root, b.root) && (r.Ok? || r.Refused?) && ReadOnlyKept(b.root, r.fs.root)
    ensures ReadOnlyKept(a.root, r.fs.root)
  {
    ReadOnlyTransitive(a.root, b.root, r.fs.root);
  }

  /** Creating a file leaves every other file alone. */
  lemma OpenLeavesOthers(fs: Fs, cs: seq<string>, ds: seq<string>)
    requires Mirrors(fs) && At(fs.root, cs).None? && fs.root.Dir? && ds != cs
    ensures var r := OpenWithOptions(fs, cs, CREATING);
            r.Ok? ==>
              && (At(fs.root, ds).Some? && At(fs.root, ds).value.File? ==> At(r.fs.root, ds) == At(fs.root, ds))
              && At(r.fs.root, cs).Some? && r.fs.root.Dir? && cs != []
  {
    hide OpenWithOptions, Mirrors, Creates;
    OpenIs(fs, cs, CREATING);
    var r := OpenWithOptions(fs, cs, CREATING);
    if r.Ok? {
      CreatedFile(fs, cs, r.fs);
      CreatedLeavesOthers(fs, cs, r.fs, ds);
    }
  }

  lemma {:induction false} CreatedLeavesOthers(fs: Fs, cs: seq<string>, fs1: Fs, ds: seq<string>)
    requires CanCreate(fs, cs) && fs.root.Dir? && ds != cs && Creates(fs, cs, fs1)
    requires EntryChanged(fs, fs1, Parent(cs), Name(cs), Some(File(OnHost(NewHostPath(fs, cs)), true)))
    ensures At(fs.root, ds).Some? && At(fs.root, ds).value.File? ==> At(fs1.root, ds) == At(fs.root, ds)
    ensures At(fs1.root, cs).Some? && fs1.root.Dir? && cs != []
  {
    hide EntryChanged;
    var entry := Some(File(OnHost(NewHostPath(fs, cs)), true));
    EntryOfDir(fs.root, cs);
    LookAfter(fs, fs1, Parent(cs), Name(cs), entry, ds);
    LookAfter(fs, fs1, Parent(cs), Name(cs), entry, cs);
    DirHostAfter(fs, fs1, Parent(cs), Name(cs), entry, ds);
  }

  /** Renaming a writeable file onto itself takes it out of the guest tree but not off the host. */
  lemma RenameOntoItselfBreaks(fs: Fs, cs: seq<string>)
    requires Mirrors(fs) && cs != [] && At(fs.root, cs).Some? && At(fs.root, cs).value.File? &&
             At(fs.root, cs).value.writeable
    ensures Rename(fs, cs, cs, true).Ok? && !Mirrors(Rename(fs, cs, cs, true).fs)
  {
    WriteableFileIs(fs, cs);
    EntryOfDir(fs.root, cs);
    var h := DirHost(fs.root, Parent(cs)).value;
    var p := h + [Name(cs)];
    assert DirMirrors(fs, Parent(cs));
    HostPathsDiffer(h, Name(cs), h, Name(cs));
    var fs1 := Rename(fs, cs, cs, true).fs;
    LookAfterSetEntry(fs.root, Parent(cs), Name(cs), None, Parent(cs));
    LookAfterSetEntry(fs.root, Parent(cs), Name(cs), None, cs);
    PathsDiffer(Parent(cs), Name(cs), Parent(cs), Name(cs));
    assert !EntryMirrors(fs1, Parent(cs), h, Name(cs));
    assert !DirMirrors(fs1, Parent(cs));
  }

  /** A rename that succeeds keeps the guest tree and the host in agreement exactly when it is not onto itself. */
  lemma RenameKeepsMirrorIff(fs: Fs, from: seq<string>, to: seq<string>)
    requires Mirrors(fs) && fs.root.Dir? && Rename(fs, from, to, true).Ok?
    ensures Mirrors(Rename(fs, from, to, true).fs) <==> from != to
  {
    if from == to {
      RenamedIsWriteableFile(fs, from, to);
      RenameOntoItselfBreaks(fs, from);
    } else {
      RenameKeeps(fs, from, to, true);
    }
  }

  lemma RenamedIsWriteableFile(fs: Fs, from: seq<string>, to: seq<string>)
    requires fs.root.Dir? && Rename(fs, from, to, true).Ok?
    ensures from != [] && At(fs.root, from).Some? && At(fs.root, from).value.File? && At(fs.root, from).value.writeable
  {
  }

  // ---------------------------------------------------------------- creating all directories of a path

  /** Each prefix from the `k`-th to the last but one is a directory, and the whole path exists. */
  ghost predicate PathExists(n: Node, cs: seq<string>) {
    (forall k :: 0 <= k < |cs| ==> HasDir(n, cs[..k])) && At(n, cs).Some?
  }

  lemma PathExistsIff(n: Node, cs: seq<string>)
    ensures PathExists(n, cs) <==> At(n, cs).Some?
  {
    if At(n, cs).Some? {
      forall k | 0 <= k < |cs| ensures HasDir(n, cs[..k]) { PrefixIsDir(n, cs, k); }
    }
  }

  lemma {:induction false} PrefixIsDir(n: Node, cs: seq<string>, k: nat)
    requires At(n, cs).Some? && k < |cs|
    ensures HasDir(n, cs[..k])
    decreases k
  {
    if k > 0 {
      assert cs[..k][1..] == cs[1..][..k - 1];
      PrefixIsDir(n.children[cs[0]], cs[1..], k - 1);
    }
  }

  /**
   `create_dir_all` that succeeds leaves the path existing, all its proper prefixes directories, and
   the path itself a directory unless it already was a file.
   */
  lemma {:induction false} CreateDirAllKeeps(fs: Fs, cs: seq<string>, k: nat)
    requires Mirrors(fs) && fs.root.Dir? && k <= |cs| && (k > 0 ==> At(fs.root, cs[..k]).Some?)
    ensures var r := CreateDirAll(fs, cs, k);
            && (r.Ok? ==> Kept(fs, r.fs))
            && (r.Ok? && r.value.None? ==> PathExists(r.fs.root, cs))
            && (r.Ok? && r.value.None? && k < |cs| ==>
               HasDir(r.fs.root, cs) || (At(fs.root, cs).Some? && At(fs.root, cs).value.File?))
            && !r.Refused? && (r.Panic? ==> r.why != HostError)
    decreases |cs| - k
  {
    hide Mirrors, ReadOnlyKept, CreateDir;
    ReadOnlyReflexive(fs);
    if k == |cs| {
      assert cs[..k] == cs;
      PathExistsIff(fs.root, cs);
    } else {
      var ds := cs[..k + 1];
      CreateDirKeeps(fs, ds);
      CreateDirSays(fs, ds);
      match CreateDir(fs, ds) {
        case Ok(fs1, e) =>
          if e == None || e == Some(AlreadyExist) {
            assert HasDir(fs.root, []) && HasDir(fs1.root, []) && fs1.root.Dir?;
            CreateDirAllKeeps(fs1, cs, k + 1);
            if CreateDirAll(fs1, cs, k + 1).Ok? {
              ReadOnlyTransitive(fs.root, fs1.root, CreateDirAll(fs1, cs, k + 1).fs.root);
            }
            assert k + 1 == |cs| ==> ds == cs;
          }
        case _ =>
      }
    }
  }

  /** `create_dir` reports an existing entry exactly when there is one; otherwise, on success, it is a new directory. */
  lemma CreateDirSays(fs: Fs, cs: seq<string>)
    requires cs != []
    ensures CreateDir(fs, cs).Ok? && CreateDir(fs, cs).value == Some(AlreadyExist) <==> At(fs.root, cs).Some?
  {
    AtParent(fs.root, cs);
  }
}
