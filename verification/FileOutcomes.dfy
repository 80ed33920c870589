/**
 When the filesystem's operations succeed and what they then change, told from what can be seen at
 each place before and after (src/fs.rs:927-1243).
 */
module FileOutcomes {
  import opened Prelude
  import opened Paths
  import opened FileSystem
  import opened FileMirror

  predicate IsWriteableDir(n: Node, cs: seq<string>) { DirHost(n, cs).Some? }

  predicate IsWriteableFile(n: Node, cs: seq<string>) {
    LookAt(n, cs).Some? && LookAt(n, cs).value.FileLook? && LookAt(n, cs).value.writeable
  }

  predicate IsEmptyWriteableDir(n: Node, cs: seq<string>) {
    IsWriteableDir(n, cs) && LookAt(n, cs).value.DirLook? && LookAt(n, cs).value.names == {}
  }

  /** The host path of an entry of a writeable directory. */
  function EntryHost(n: Node, cs: seq<string>): HostPath
    requires cs != [] && IsWriteableDir(n, Parent(cs))
  {
    DirHost(n, Parent(cs)).value + [Name(cs)]
  }

  /** Directory `ps` of the new tree has the names given, and is otherwise what it was. */
  predicate NamesAre(a: Node, b: Node, ps: seq<string>, names: set<string>) {
    LookAt(b, ps) == Some(DirLook(names, DirHost(a, ps)))
  }

  function NamesIn(n: Node, cs: seq<string>): set<string> {
    match LookAt(n, cs) case Some(DirLook(names, _)) => names case _ => {}
  }

  /** Exactly the entry at `cs` has gone, in the guest and on the host. */
  ghost predicate Removes(fs: Fs, fs1: Fs, cs: seq<string>)
    requires cs != [] && IsWriteableDir(fs.root, Parent(cs))
  {
    && EntryHost(fs.root, cs) in fs.host && fs1.host == fs.host - {EntryHost(fs.root, cs)}
    && LookAt(fs1.root, cs).None?
    && NamesAre(fs.root, fs1.root, Parent(cs), NamesIn(fs.root, Parent(cs)) - {Name(cs)})
    && forall ds: seq<string> :: ds != cs && ds != Parent(cs) ==> LookAt(fs1.root, ds) == LookAt(fs.root, ds)
  }

  /** Exactly an entry at `cs` has come, where there was nothing, in the guest and on the host. */
  ghost predicate Adds(fs: Fs, fs1: Fs, cs: seq<string>, look: Look, kind: HostKind)
    requires cs != [] && IsWriteableDir(fs.root, Parent(cs))
  {
    && EntryHost(fs.root, cs) !in fs.host && fs1.host == fs.host[EntryHost(fs.root, cs) := kind]
    && LookAt(fs.root, cs).None? && LookAt(fs1.root, cs) == Some(look)
    && NamesAre(fs.root, fs1.root, Parent(cs), NamesIn(fs.root, Parent(cs)) + {Name(cs)})
    && forall ds: seq<string> :: ds != cs && ds != Parent(cs) ==> LookAt(fs1.root, ds) == LookAt(fs.root, ds)
  }

  lemma {:induction false} EntryLooks(fs: Fs, fs1: Fs, cs: seq<string>, entry: Option<Node>)
    requires cs != [] && EntryChanged(fs, fs1, Parent(cs), Name(cs), entry)
    ensures LookAt(fs1.root, cs) == if entry.None? then None else LookAt(entry.value, [])
    ensures var names := NamesIn(fs.root, Parent(cs));
            NamesAre(fs.root, fs1.root, Parent(cs), if entry.Some? then names + {Name(cs)} else names - {Name(cs)})
    ensures forall ds: seq<string> :: ds != cs && ds != Parent(cs) ==> LookAt(fs1.root, ds) == LookAt(fs.root, ds)
  {
    hide SetEntry;
    assert Parent(cs) + [Name(cs)] == cs;
    forall ds: seq<string>
      ensures ds != cs && ds != Parent(cs) ==> LookAt(fs1.root, ds) == LookAt(fs.root, ds)
    {
      LookAfter(fs, fs1, Parent(cs), Name(cs), entry, ds);
    }
    LookAfterSetEntry(fs.root, Parent(cs), Name(cs), entry, cs);
    LookAfterSetEntry(fs.root, Parent(cs), Name(cs), entry, Parent(cs));
  }

  /** An entry of a writeable directory is on the host, if it can be written at all. */
  lemma {:induction false} EntryIsOnHost(fs: Fs, cs: seq<string>)
    requires Mirrors(fs) && cs != [] && IsWriteableDir(fs.root, Parent(cs)) && LookAt(fs.root, cs).Some?
    ensures EntryHost(fs.root, cs) in fs.host
    ensures IsWriteableFile(fs.root, cs) <==> LookAt(fs.root, cs).value.FileLook?
    ensures IsWriteableDir(fs.root, cs) <==> LookAt(fs.root, cs).value.DirLook?
  {
    var h := DirHost(fs.root, Parent(cs)).value;
    assert Parent(cs) + [Name(cs)] == cs;
    assert DirMirrors(fs, Parent(cs)) && EntryMirrors(fs, Parent(cs), h, Name(cs));
    assert DirMirrors(fs, cs);
  }

  lemma {:induction false} RemovalSucceedsWhen(fs: Fs, cs: seq<string>)
    requires cs != [] && HasDir(fs.root, Parent(cs)) && !Remove(fs, cs).Panic?
    ensures Remove(fs, cs).Ok? <==>
            IsWriteableDir(fs.root, Parent(cs)) &&
              (IsWriteableFile(fs.root, cs) || IsEmptyWriteableDir(fs.root, cs))
  {
    hide SetEntry;
    EntryOfDir(fs.root, cs);
    if HasDir(fs.root, cs) { NoNames(fs.root, cs); }
  }

  lemma NoNames(n: Node, cs: seq<string>)
    requires HasDir(n, cs)
    ensures At(n, cs).value.children.Keys == {} <==> At(n, cs).value.children == map[]
  {
  }

  lemma {:induction false} NoParent(n: Node, cs: seq<string>)
    requires cs != [] && !HasDir(n, Parent(cs))
    ensures !IsWriteableDir(n, Parent(cs)) && At(n, cs).None?
  {
    AtParent(n, cs);
  }

  lemma {:induction false} Removed(fs: Fs, fs1: Fs, cs: seq<string>)
    requires Mirrors(fs) && cs != [] && EntryChanged(fs, fs1, Parent(cs), Name(cs), None)
    requires LookAt(fs.root, cs).Some?
    ensures Removes(fs, fs1, cs)
  {
    hide Mirrors, SetEntry, LookAt;
    EntryLooks(fs, fs1, cs, None);
    EntryIsOnHost(fs, cs);
    assert fs1.host == fs.host - {EntryHost(fs.root, cs)};
  }

  /** Removing succeeds exactly for a writeable file or an empty writeable directory in a writeable directory. */
  lemma {:induction false} RemoveSucceedsIff(fs: Fs, cs: seq<string>)
    requires Mirrors(fs)
    ensures var r := Remove(fs, cs);
            && (r.Ok? <==>
                  cs != [] && IsWriteableDir(fs.root, Parent(cs)) &&
                  (IsWriteableFile(fs.root, cs) || IsEmptyWriteableDir(fs.root, cs)))
            && (if r.Ok? then Removes(fs, r.fs, cs) else r == Refused(fs))
  {
    hide Mirrors, Removes, EntryChanged, IsWriteableFile, IsEmptyWriteableDir, IsWriteableDir;
    RemoveKeeps(fs, cs);
    var r := Remove(fs, cs);
    if cs != [] {
      if HasDir(fs.root, Parent(cs)) {
        RemovalSucceedsWhen(fs, cs);
        if r.Ok? {
          EntryOfDir(fs.root, cs);
          RemovalChangesEntry(fs, cs);
          Removed(fs, r.fs, cs);
        }
      } else {
        NoParent(fs.root, cs);
      }
    }
  }

  // ---------------------------------------------------------------- opening and creating

  /** There is nothing at `cs`, in a writeable directory, and the name can be one on the host. */
  predicate HasRoom(n: Node, cs: seq<string>) {
    cs != [] && IsWriteableDir(n, Parent(cs)) && LookAt(n, cs).None? && '/' !in Name(cs)
  }

  /** What is at `cs` can be opened with these options. */
  predicate CanOpen(fs: Fs, cs: seq<string>, o: Options) {
    cs != [] &&
    match LookAt(fs.root, cs)
    case None => false
    case Some(DirLook(_, _)) => !o.write
    case Some(FileLook(OnHost(p), writeable)) =>
      (writeable || !(o.append || o.write)) && Sensible(o) && IsHostFile(fs.host, p)
    case Some(FileLook(_, writeable)) => !writeable && !o.append && !o.write
  }

  /** What opening what is at `cs` gives. */
  function WhatIsThere(n: Node, cs: seq<string>): Opened
    requires LookAt(n, cs).Some?
  {
    match LookAt(n, cs).value case DirLook(_, _) => TheDirectory case FileLook(location, _) => TheFile(location)
  }

  lemma {:induction false} OpenExisting(fs: Fs, cs: seq<string>, o: Options)
    requires LookAt(fs.root, cs).Some?
    ensures var r := OpenWithOptions(fs, cs, o);
            && (r.Ok? <==> ((o.truncate || o.create) ==> (o.write || o.append)) && CanOpen(fs, cs, o))
            && (r.Ok? ==> r.fs == fs && r.value == WhatIsThere(fs.root, cs))
  {
    hide SetEntry;
    if cs != [] { AtParent(fs.root, cs); }
  }

  lemma {:induction false} OpenNew(fs: Fs, cs: seq<string>, o: Options)
    requires Mirrors(fs) && LookAt(fs.root, cs).None?
    ensures var r := OpenWithOptions(fs, cs, o);
            && (r.Ok? <==> o.create && (o.write || o.append) && Sensible(o) && HasRoom(fs.root, cs))
            && (r.Ok? ==> Creates(fs, cs, r.fs) && r.value == TheFile(OnHost(EntryHost(fs.root, cs))))
  {
    hide SetEntry, Mirrors;
    if cs != [] {
      AtParent(fs.root, cs);
      if CanCreate(fs, cs) { FreeName(fs, cs); }
    }
  }

  lemma {:induction false} Added(fs: Fs, fs1: Fs, cs: seq<string>, entry: Node, kind: HostKind)
    requires Mirrors(fs) && CanCreate(fs, cs) && fs1.host == fs.host[NewHostPath(fs, cs) := kind]
    requires EntryChanged(fs, fs1, Parent(cs), Name(cs), Some(entry))
    ensures IsWriteableDir(fs.root, Parent(cs)) && EntryHost(fs.root, cs) == NewHostPath(fs, cs)
    ensures LookAt(entry, []).Some? && Adds(fs, fs1, cs, LookAt(entry, []).value, kind)
  {
    hide Mirrors, SetEntry;
    EntryLooks(fs, fs1, cs, Some(entry));
    EntryOfDir(fs.root, cs);
    FreeName(fs, cs);
  }

  /**
   Opening succeeds exactly with options that go together, for what is there and can be opened so, or
   to create what is not there and has room; only then does anything change, and exactly by the new file.
   */
  lemma {:induction false} OpenSucceedsIff(fs: Fs, cs: seq<string>, o: Options)
    requires Mirrors(fs)
    ensures var r := OpenWithOptions(fs, cs, o);
            && (r.Ok? <==>
                  && ((o.truncate || o.create) ==> (o.write || o.append))
                  && (CanOpen(fs, cs, o) || (o.create && Sensible(o) && HasRoom(fs.root, cs))))
            && (r.Ok? ==>
                  if LookAt(fs.root, cs).Some? then r.fs == fs && r.value == WhatIsThere(fs.root, cs)
                  else
                    var p := EntryHost(fs.root, cs);
                    Adds(fs, r.fs, cs, FileLook(OnHost(p), true), HostFile) && r.value == TheFile(OnHost(p)))
  {
    hide OpenWithOptions, Mirrors, Adds, EntryChanged, SetEntry;
    if LookAt(fs.root, cs).Some? {
      OpenExisting(fs, cs, o);
    } else {
      OpenNew(fs, cs, o);
      var r := OpenWithOptions(fs, cs, o);
      if r.Ok? {
        CreatedFile(fs, cs, r.fs);
        Added(fs, r.fs, cs, File(OnHost(NewHostPath(fs, cs)), true), HostFile);
      }
    }
  }

  // ---------------------------------------------------------------- making directories

  /** Why no directory can be made at `cs`, if there is a reason. */
  function CreateDirRefusal(n: Node, cs: seq<string>): Option<FsError> {
    if cs == [] then Some(NonexistentParentDir)
    else
      match LookAt(n, Parent(cs))
      case None => Some(NonexistentParentDir)
      case Some(FileLook(_, _)) => Some(InvalidParentDir)
      case Some(DirLook(names, host)) =>
        if Name(cs) in names then Some(AlreadyExist) else if host.None? then Some(ReadonlyParentDir) else None
  }

  lemma {:induction false} CreateDirAnswers(fs: Fs, cs: seq<string>)
    requires Mirrors(fs)
    ensures match CreateDir(fs, cs)
            case Refused(_) => false
            case Panic(why) => why == Separator && CreateDirRefusal(fs.root, cs).None? && '/' in Name(cs)
            case Ok(fs1, e) =>
              && e == CreateDirRefusal(fs.root, cs)
              && (if e.Some? then fs1 == fs else MakesDir(fs, cs, fs1) && HasRoom(fs.root, cs))
  {
    hide SetEntry, Mirrors;
    if cs != [] {
      AtParent(fs.root, cs);
      if CanCreate(fs, cs) { FreeName(fs, cs); }
    }
  }

  /**
   Making a directory succeeds exactly where nothing is, in a writeable directory, and then adds exactly
   an empty writeable directory; otherwise it says why, or panics over a separator, and changes nothing.
   */
  lemma {:induction false} CreateDirSucceedsIff(fs: Fs, cs: seq<string>)
    requires Mirrors(fs)
    ensures var r := CreateDir(fs, cs);
            && (r.Ok? && r.value.None? <==> HasRoom(fs.root, cs))
            && (r.Ok? && r.value.None? ==>
                  Adds(fs, r.fs, cs, DirLook({}, Some(EntryHost(fs.root, cs))), HostDir))
            && (r.Ok? && r.value.Some? ==> r.value == CreateDirRefusal(fs.root, cs) && r.fs == fs)
            && (r.Panic? ==> CreateDirRefusal(fs.root, cs).None? && '/' in Name(cs))
  {
    hide CreateDir, Mirrors, Adds, EntryChanged, SetEntry, LookAt;
    CreateDirAnswers(fs, cs);
    RoomIff(fs.root, cs);
    var r := CreateDir(fs, cs);
    if r.Ok? && r.value.None? {
      EntryOfDir(fs.root, cs);
      CreateDirIs(fs, cs);
      CreationChangesEntry(fs, r.fs, cs);
      Added(fs, r.fs, cs, Dir(map[], Some(NewHostPath(fs, cs))), HostDir);
      EmptyDirLook(Some(NewHostPath(fs, cs)));
    }
  }

  lemma EmptyDirLook(h: Option<HostPath>)
    ensures LookAt(Dir(map[], h), []) == Some(DirLook({}, h))
  {
    var none: map<string, Node> := map[];
    assert none.Keys == {};
  }

  lemma {:induction false} RoomIff(n: Node, cs: seq<string>)
    ensures HasRoom(n, cs) <==> CreateDirRefusal(n, cs).None? && '/' !in Name(cs)
  {
    if cs != [] { AtParent(n, cs); }
  }

  // ---------------------------------------------------------------- renaming

  /** A writeable file can be put at `to`: one is there already, or there is room for it. */
  predicate CanReceive(n: Node, to: seq<string>) { IsWriteableFile(n, to) || HasRoom(n, to) }

  /** A file has moved: from one directory's names to another's, and on the host from one path to the other. */
  ghost predicate Moves(fs: Fs, fs1: Fs, from: seq<string>, to: seq<string>)
    requires from != [] && to != [] && IsWriteableDir(fs.root, Parent(from)) && IsWriteableDir(fs.root, Parent(to))
  {
    var f, t := EntryHost(fs.root, from), EntryHost(fs.root, to);
    && fs1.host == (fs.host - {f})[t := HostFile] && f != t
    && LookAt(fs1.root, from).None? && LookAt(fs1.root, to) == Some(FileLook(OnHost(t), true))
    && NamesAre(fs.root, fs1.root, Parent(from),
         NamesIn(fs.root, Parent(from)) + (if Parent(to) == Parent(from) then {Name(to)} else {}) - {Name(from)})
    && (Parent(to) != Parent(from) ==>
         NamesAre(fs.root, fs1.root, Parent(to), NamesIn(fs.root, Parent(to)) + {Name(to)}))
    && forall ds: seq<string> :: ds != from && ds != to && ds != Parent(from) && ds != Parent(to) ==>
         LookAt(fs1.root, ds) == LookAt(fs.root, ds)
  }

  /** Where a rename moves the file to: `fs` itself, or `fs` with the target created. */
  ghost predicate Receives(fs: Fs, fs1: Fs, to: seq<string>) {
    && to != [] && IsWriteableDir(fs.root, Parent(to)) && IsWriteableFile(fs1.root, to)
    && if LookAt(fs.root, to).Some? then fs1 == fs
       else Adds(fs, fs1, to, FileLook(OnHost(EntryHost(fs.root, to)), true), HostFile)
  }

  /** Renaming a writeable file fails for want of a target, or is the move onto it. */
  lemma {:induction false} RenameIsMove(fs: Fs, from: seq<string>, to: seq<string>, hostOk: bool) returns (fs1: Fs)
    requires Mirrors(fs) && fs.root.Dir? && from != to && IsWriteableFile(fs.root, from)
    ensures At(fs.root, from).value.location.OnHost? && from != []
    ensures if CanReceive(fs.root, to) then
              && Mirrors(fs1) && Receives(fs, fs1, to) && At(fs1.root, to).value.location.OnHost?
              && At(fs1.root, from) == At(fs.root, from)
              && Rename(fs, from, to, hostOk) ==
                 MoveFile(fs1, from, At(fs.root, from).value.location.path,
                   At(fs1.root, to).value.location.path, hostOk)
            else !Rename(fs, from, to, hostOk).Ok?
  {
    hide Mirrors, MoveFile, OpenWithOptions, Adds, HasRoom;
    WriteableFileIs(fs, from);
    fs1 := fs;
    if LookAt(fs.root, to).Some? {
      NoRoomThere(fs.root, to);
      if IsWriteableFile(fs.root, to) {
        WriteableFileIs(fs, to);
        EntryOfDir(fs.root, to);
      }
    } else {
      OpenSucceedsIff(fs, to, CREATING);
      OpenKeeps(fs, to, CREATING);
      OpenLeavesOthers(fs, to, from);
      var r := OpenWithOptions(fs, to, CREATING);
      if r.Ok? {
        fs1 := r.fs;
        RoomHasParent(fs.root, to);
        AddedLook(fs, fs1, to);
      }
    }
  }

  lemma NoRoomThere(n: Node, cs: seq<string>)
    requires LookAt(n, cs).Some?
    ensures !HasRoom(n, cs)
  {
  }

  lemma RoomHasParent(n: Node, cs: seq<string>)
    requires HasRoom(n, cs)
    ensures cs != [] && IsWriteableDir(n, Parent(cs)) && '/' !in Name(cs)
  {
  }

  lemma AddedLook(fs: Fs, fs1: Fs, cs: seq<string>)
    requires cs != [] && IsWriteableDir(fs.root, Parent(cs))
    requires Adds(fs, fs1, cs, FileLook(OnHost(EntryHost(fs.root, cs)), true), HostFile)
    ensures IsWriteableFile(fs1.root, cs) && At(fs1.root, cs) == Some(File(OnHost(EntryHost(fs.root, cs)), true))
  {
  }

  /** The move itself, within one tree. */
  lemma {:induction false} MoveSucceedsIff(fs: Fs, from: seq<string>, to: seq<string>, hostOk: bool)
    requires Mirrors(fs) && from != to && from != [] && to != []
    requires IsWriteableFile(fs.root, from) && IsWriteableFile(fs.root, to)
    ensures At(fs.root, from).value.location.OnHost? && At(fs.root, to).value.location.OnHost?
    ensures IsWriteableDir(fs.root, Parent(from)) && IsWriteableDir(fs.root, Parent(to))
    ensures var f, t := At(fs.root, from).value.location.path, At(fs.root, to).value.location.path;
            && f == EntryHost(fs.root, from) && t == EntryHost(fs.root, to) && f != t
            && IsHostFile(fs.host, f) && IsHostFile(fs.host, t)
            && var r := MoveFile(fs, from, f, t, hostOk);
               && (r.Ok? <==> hostOk)
               && (r.Ok? ==> EntryChanged(fs, r.fs, Parent(from), Name(from), None))
               && (r.Ok? ==> r.fs.host == (fs.host - {f})[t := HostFile])
  {
    hide Mirrors, EntryChanged, SetEntry;
    WriteableFileIs(fs, from);
    WriteableFileIs(fs, to);
    MoveKeeps(fs, from, to, hostOk);
    EntryOfDir(fs.root, from);
    EntryOfDir(fs.root, to);
    var h, g := DirHost(fs.root, Parent(from)).value, DirHost(fs.root, Parent(to)).value;
    HostPathsDiffer(h, Name(from), g, Name(to));
    if h == g { OneDirThere(fs, Parent(from), Parent(to)); }
    DirIsOnHost(fs, Parent(to));
    if hostOk { MoveChangesEntry(fs, from, h + [Name(from)], g + [Name(to)]); }
  }

  lemma DirIsOnHost(fs: Fs, cs: seq<string>)
    requires Mirrors(fs) && DirHost(fs.root, cs).Some?
    ensures DirHost(fs.root, cs).value in fs.host && fs.host[DirHost(fs.root, cs).value] == HostDir
  {
    assert DirMirrors(fs, cs);
  }

  lemma OneDirThere(fs: Fs, cs: seq<string>, ds: seq<string>)
    requires Mirrors(fs) && DirHost(fs.root, cs).Some? && DirHost(fs.root, cs) == DirHost(fs.root, ds)
    ensures cs == ds
  {
  }

  /** After making room for the target, the move leaves what a move leaves. */
  lemma {:induction false} MovedLooks(fs: Fs, fs1: Fs, fs2: Fs, from: seq<string>, to: seq<string>)
    requires Receives(fs, fs1, to) && from != to && from != [] && to != []
    requires IsWriteableFile(fs1.root, from) && IsWriteableFile(fs1.root, to)
    requires IsWriteableDir(fs.root, Parent(from)) && IsWriteableDir(fs.root, Parent(to))
    requires DirHost(fs1.root, Parent(from)) == DirHost(fs.root, Parent(from))
    requires DirHost(fs1.root, Parent(to)) == DirHost(fs.root, Parent(to))
    requires LookAt(fs1.root, to).value.location == OnHost(EntryHost(fs.root, to))
    requires EntryHost(fs.root, from) != EntryHost(fs.root, to)
    requires EntryChanged(fs1, fs2, Parent(from), Name(from), None)
    requires fs2.host == (fs1.host - {EntryHost(fs.root, from)})[EntryHost(fs.root, to) := HostFile]
    ensures Moves(fs, fs2, from, to)
  {
    hide Mirrors, EntryChanged, SetEntry, LookAt, DirHost;
    EntryLooks(fs1, fs2, from, None);
    SameEntry(from, to);
    NotBelowFile(fs1.root, from, to);
    var f, t := EntryHost(fs.root, from), EntryHost(fs.root, to);
    var names := NamesIn(fs.root, Parent(from));
    assert names + {} - {Name(from)} == names - {Name(from)};
    if LookAt(fs.root, to).Some? {
      EntryInNames(fs.root, to);
      assert NamesIn(fs.root, Parent(to)) + {Name(to)} == NamesIn(fs.root, Parent(to));
      assert fs2.host == (fs.host - {f})[t := HostFile];
    } else {
      assert fs2.host == (fs.host - {f})[t := HostFile];
    }
  }

  lemma SameEntry(cs: seq<string>, ds: seq<string>)
    requires cs != [] && ds != [] && cs != ds
    ensures Parent(cs) == Parent(ds) ==> Name(cs) != Name(ds)
  {
    assert Parent(cs) + [Name(cs)] == cs && Parent(ds) + [Name(ds)] == ds;
  }

  lemma {:induction false} NotBelowFile(n: Node, from: seq<string>, to: seq<string>)
    requires from != [] && to != [] && LookAt(n, from).Some? && LookAt(n, from).value.FileLook?
    requires LookAt(n, to).Some? && LookAt(n, to).value.FileLook?
    ensures Parent(to) != from && Parent(from) != to
  {
    AtParent(n, from);
    AtParent(n, to);
  }

  lemma {:induction false} EntryInNames(n: Node, cs: seq<string>)
    requires cs != [] && LookAt(n, cs).Some? && IsWriteableDir(n, Parent(cs))
    ensures Name(cs) in NamesIn(n, Parent(cs)) && NamesAre(n, n, Parent(cs), NamesIn(n, Parent(cs)))
  {
    AtParent(n, cs);
  }

  /**
   Renaming onto another path succeeds exactly if the host agrees and a writeable file is moved to where
   one is or can be; then the file is there, and not where it was, and nothing else has changed.
   */
  lemma {:induction false} RenameSucceedsIff(fs: Fs, from: seq<string>, to: seq<string>, hostOk: bool)
    requires Mirrors(fs) && fs.root.Dir? && from != to
    ensures var r := Rename(fs, from, to, hostOk);
            && (r.Ok? <==> hostOk && IsWriteableFile(fs.root, from) && CanReceive(fs.root, to))
            && (r.Ok? ==>
                  && from != [] && to != []
                  && IsWriteableDir(fs.root, Parent(from)) && IsWriteableDir(fs.root, Parent(to))
                  && Moves(fs, r.fs, from, to))
  {
    hide Rename, MoveFile, Mirrors, Moves, EntryChanged, CanReceive, Receives;
    if IsWriteableFile(fs.root, from) {
      var fs1 := RenameIsMove(fs, from, to, hostOk);
      if CanReceive(fs.root, to) {
        ReceivesAt(fs, fs1, from, to);
        MoveSucceedsIff(fs1, from, to, hostOk);
        WriteableFileIs(fs, from);
        var r := Rename(fs, from, to, hostOk);
        if r.Ok? {
          SameHosts(fs, fs1, from, to);
          MovedLooks(fs, fs1, r.fs, from, to);
        }
      }
    } else {
      OnlyWriteableFiles(fs, from, to, hostOk);
    }
  }

  lemma ReceivesAt(fs: Fs, fs1: Fs, from: seq<string>, to: seq<string>)
    requires Receives(fs, fs1, to) && IsWriteableFile(fs.root, from) && At(fs1.root, from) == At(fs.root, from)
    ensures to != [] && IsWriteableFile(fs1.root, to) && IsWriteableFile(fs1.root, from)
    ensures IsWriteableDir(fs.root, Parent(to))
  {
  }

  /** Making room for the target moves no directory. */
  lemma {:induction false} SameHosts(fs: Fs, fs1: Fs, from: seq<string>, to: seq<string>)
    requires Receives(fs, fs1, to) && from != [] && IsWriteableDir(fs1.root, Parent(from))
    ensures DirHost(fs1.root, Parent(to)) == DirHost(fs.root, Parent(to))
    ensures DirHost(fs1.root, Parent(from)) == DirHost(fs.root, Parent(from))
  {
  }

  lemma {:induction false} OnlyWriteableFiles(fs: Fs, from: seq<string>, to: seq<string>, hostOk: bool)
    requires !IsWriteableFile(fs.root, from)
    ensures !Rename(fs, from, to, hostOk).Ok?
  {
  }

  // ---------------------------------------------------------------- where the host has a file

  /** A file has the host path it was found at; what is not there, the one it would get where it can be created. */
  lemma {:induction false} HostPathIs(fs: Fs, cs: seq<string>)
    ensures HostPathFor(fs, cs) ==
            match LookAt(fs.root, cs)
            case Some(FileLook(OnHost(p), _)) => Some(p)
            case Some(_) => None
            case None =>
              if cs != [] && IsWriteableDir(fs.root, Parent(cs)) then Some(EntryHost(fs.root, cs)) else None
  {
  }

  /** The path the host has for a file is the one that opening it uses, before and after, created or not. */
  lemma {:induction false} HostPathForesees(fs: Fs, cs: seq<string>, o: Options)
    requires Mirrors(fs) && fs.root.Dir?
    ensures match OpenWithOptions(fs, cs, o)
            case Ok(fs1, TheFile(OnHost(p))) => HostPathFor(fs, cs) == Some(p) && HostPathFor(fs1, cs) == Some(p)
            case _ => true
  {
    hide Mirrors, HostPathFor;
    HostPathIs(fs, cs);
    OpenSucceedsIff(fs, cs, o);
    var r := OpenWithOptions(fs, cs, o);
    if r.Ok? { HostPathIs(r.fs, cs); }
  }

  // ---------------------------------------------------------------- making all directories of a path

  /** All of `cs` is there, or its first `j` names are a writeable directory with nothing further on, and room. */
  ghost predicate CanMakeAll(n: Node, cs: seq<string>) {
    LookAt(n, cs).Some? || exists j: nat :: RoomFrom(n, cs, j)
  }

  predicate RoomFrom(n: Node, cs: seq<string>, j: nat) {
    j < |cs| && IsWriteableDir(n, cs[..j]) && LookAt(n, cs[..j + 1]).None? &&
      forall k :: j <= k < |cs| ==> '/' !in cs[k]
  }

  /** Some place from the `k`-th name on from which the rest can be made. */
  ghost predicate RoomSomewhere(n: Node, cs: seq<string>, k: nat) { exists j: nat :: k <= j && RoomFrom(n, cs, j) }

  lemma {:induction false} LongerIsNothing(n: Node, cs: seq<string>, i: nat, j: nat)
    requires i <= j <= |cs| && LookAt(n, cs[..i]).None?
    ensures LookAt(n, cs[..j]).None?
  {
    if i < j && At(n, cs[..j]).Some? {
      assert cs[..j][..i] == cs[..i];
      PrefixIsDir(n, cs[..j], i);
    }
  }

  /** Beyond the first name that is not there, nothing is a directory to make more in. */
  lemma {:induction false} OnlyAtTheEnd(n: Node, cs: seq<string>, k: nat)
    requires k < |cs| && LookAt(n, cs[..k + 1]).None?
    ensures RoomSomewhere(n, cs, k) <==> RoomFrom(n, cs, k)
    ensures LookAt(n, cs).None?
  {
    hide LookAt;
    forall j: nat | k < j && RoomFrom(n, cs, j) ensures false {
      LongerIsNothing(n, cs, k + 1, j);
    }
    LongerIsNothing(n, cs, k + 1, |cs|);
    assert cs[..|cs|] == cs;
  }

  lemma {:induction false} FoundThere(n: Node, cs: seq<string>, k: nat)
    requires k < |cs| && LookAt(n, cs[..k + 1]).Some?
    ensures RoomSomewhere(n, cs, k) <==> RoomSomewhere(n, cs, k + 1)
  {
    hide LookAt;
    if RoomSomewhere(n, cs, k) {
      var j: nat :| k <= j && RoomFrom(n, cs, j);
      assert k + 1 <= j;
    }
  }

  /** In an empty directory just made, the rest can be made if the names can be names. */
  lemma {:induction false} RoomInNewDir(n: Node, cs: seq<string>, k: nat)
    requires k + 1 < |cs| && IsEmptyWriteableDir(n, cs[..k + 1])
    ensures RoomSomewhere(n, cs, k + 1) <==> forall i :: k + 1 <= i < |cs| ==> '/' !in cs[i]
    ensures LookAt(n, cs).None?
  {
    var ds := cs[..k + 1];
    assert cs[..k + 2] == ds + [cs[k + 1]];
    AtAppend(n, ds, cs[k + 1]);
    assert cs[..(k + 1) + 1] == cs[..k + 2];
    OnlyAtTheEnd(n, cs, k + 1);
  }

  /** The first directory that has to be made: success depends on the room for it and the names after it. */
  lemma {:induction false} MakesTheRest(fs: Fs, fs1: Fs, cs: seq<string>, k: nat)
    requires k < |cs| && HasRoom(fs.root, cs[..k + 1])
    requires Adds(fs, fs1, cs[..k + 1], DirLook({}, Some(EntryHost(fs.root, cs[..k + 1]))), HostDir)
    ensures RoomSomewhere(fs.root, cs, k) <==>
            k + 1 == |cs| || LookAt(fs1.root, cs).Some? || RoomSomewhere(fs1.root, cs, k + 1)
    ensures LookAt(fs.root, cs).None?
  {
    var ds := cs[..k + 1];
    assert Parent(ds) == cs[..k] && Name(ds) == cs[k];
    OnlyAtTheEnd(fs.root, cs, k);
    if k + 1 < |cs| { RoomInNewDir(fs1.root, cs, k); }
  }

  lemma {:induction false} CreateDirAllFrom(fs: Fs, cs: seq<string>, k: nat)
    requires Mirrors(fs) && fs.root.Dir? && k <= |cs|
    ensures var r := CreateDirAll(fs, cs, k);
            r.Ok? && r.value.None? <==> k == |cs| || LookAt(fs.root, cs).Some? || RoomSomewhere(fs.root, cs, k)
    decreases |cs| - k
  {
    hide Mirrors, CreateDir, LookAt, Adds, HasRoom, RoomSomewhere, CreateDirRefusal;
    if k < |cs| {
      var ds := cs[..k + 1];
      CreateDirSucceedsIff(fs, ds);
      CreateDirKeeps(fs, ds);
      SaysAlreadyThere(fs.root, ds);
      match CreateDir(fs, ds) {
        case Ok(fs1, e) =>
          if e == Some(AlreadyExist) {
            FoundThere(fs.root, cs, k);
            CreateDirAllFrom(fs1, cs, k + 1);
            if k + 1 == |cs| { assert ds == cs; }
          } else if e.None? {
            assert HasDir(fs.root, []) && HasDir(fs1.root, []);
            MakesTheRest(fs, fs1, cs, k);
            CreateDirAllFrom(fs1, cs, k + 1);
          } else {
            NoRoomFor(fs.root, cs, k);
          }
        case _ => NoRoomFor(fs.root, cs, k);
      }
    }
  }

  lemma SaysAlreadyThere(n: Node, cs: seq<string>)
    requires n.Dir? && cs != []
    ensures CreateDirRefusal(n, cs) == Some(AlreadyExist) <==> LookAt(n, cs).Some?
  {
    AtParent(n, cs);
  }

  lemma {:induction false} NoRoomFor(n: Node, cs: seq<string>, k: nat)
    requires k < |cs| && !HasRoom(n, cs[..k + 1]) && LookAt(n, cs[..k + 1]).None?
    ensures LookAt(n, cs).None? && !RoomSomewhere(n, cs, k)
  {
    hide LookAt;
    var ds := cs[..k + 1];
    assert Parent(ds) == cs[..k] && Name(ds) == cs[k];
    OnlyAtTheEnd(n, cs, k);
  }

  /**
   Making all directories of a path succeeds exactly if the path is there already, or begins with a
   writeable directory after which nothing is, and the rest are names.
   */
  lemma {:induction false} CreateDirAllSucceedsIff(fs: Fs, cs: seq<string>)
    requires Mirrors(fs) && fs.root.Dir?
    ensures var r := CreateDirAll(fs, cs, 0); r.Ok? && r.value.None? <==> CanMakeAll(fs.root, cs)
  {
    hide Mirrors, CreateDirAll, RoomFrom;
    CreateDirAllFrom(fs, cs, 0);
  }
}
