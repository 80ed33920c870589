/**
 The virtual filesystem's operations on values (src/fs.rs:40-110, 611-766, 912-1243). The guest tree
 is an index over files of the host; the host filesystem is a table from paths to kinds.
 Paths are resolved first, so the operations here take components.
 */
module FileSystem {
  import opened Prelude
  import opened Paths

  // ---------------------------------------------------------------- nodes

  /** A path on the host, as the names from its root. */
  type HostPath = seq<string>

  datatype HostKind = HostFile | HostDir

  type Host = map<HostPath, HostKind>

  datatype Location = OnHost(path: HostPath) | InArchive(entry: string) | Resource(name: string)

  datatype Node =
    | File(location: Location, writeable: bool)
    | Dir(children: map<string, Node>, host: Option<HostPath>)

  function Child(n: Node, c: string): Option<Node> {
    if n.Dir? && c in n.children then Some(n.children[c]) else None
  }

  /** `lookup_node_inner` */
  function At(n: Node, cs: seq<string>): Option<Node> {
    if cs == [] then Some(n)
    else match Child(n, cs[0]) case None => None case Some(m) => At(m, cs[1..])
  }

  predicate HasDir(n: Node, cs: seq<string>) {
    At(n, cs).Some? && At(n, cs).value.Dir?
  }

  /** The tree with entry `name` of the directory at `ps` replaced, added or taken out. */
  function SetEntry(n: Node, ps: seq<string>, name: string, entry: Option<Node>): Node
    requires HasDir(n, ps)
  {
    if ps == [] then
      n.(children := match entry case None => n.children - {name} case Some(e) => n.children[name := e])
    else n.(children := n.children[ps[0] := SetEntry(n.children[ps[0]], ps[1..], name, entry)])
  }

  function Parent(cs: seq<string>): seq<string>
    requires cs != []
  {
    cs[..|cs| - 1]
  }

  function Name(cs: seq<string>): string
    requires cs != []
  {
    cs[|cs| - 1]
  }

  // ---------------------------------------------------------------- operations

  datatype Fs = Fs(root: Node, host: Host)

  datatype FsError = AlreadyExist | InvalidParentDir | NonexistentParentDir | ReadonlyParentDir

  datatype Why =
    | RelativeToNothing       // resolving a relative path against a working directory that is not absolute
    | BadOptions
    | HostError               // the host refused; the source gives up
    | ReadonlyContent
    | Separator
    | NotImplemented

  /** `Refused` leaves the state it carries: a rename may fail after having created its target. */
  datatype Outcome<+V> = Ok(fs: Fs, value: V) | Refused(fs: Fs) | Panic(why: Why)

  datatype Options = Options(read: bool, write: bool, append: bool, create: bool, truncate: bool)

  datatype Opened = TheDirectory | TheFile(location: Location)

  /** Opening or creating the host file at `p` for writing. */
  predicate HostCanCreate(host: Host, p: HostPath) {
    p != [] && Parent(p) in host && host[Parent(p)] == HostDir && (p in host ==> host[p] == HostFile)
  }

  /** What the host refuses whatever the file: opening it for nothing, or truncating it for appending. */
  predicate Sensible(o: Options) { (o.read || o.write || o.append) && !(o.append && o.truncate) }

  predicate IsHostFile(host: Host, p: HostPath) { p in host && host[p] == HostFile }

  function OpenWithOptions(fs: Fs, cs: seq<string>, o: Options): Outcome<Opened> {
    if (o.truncate || o.create) && !o.write && !o.append then Panic(BadOptions)
    else if cs == [] || !HasDir(fs.root, Parent(cs)) then Refused(fs)
    else
      var dir := At(fs.root, Parent(cs)).value;
      var name := Name(cs);
      if name in dir.children then
        match dir.children[name]
        case File(location, writeable) =>
          if !writeable && (o.append || o.write) then Refused(fs)
          else if location.OnHost? then
            if Sensible(o) && IsHostFile(fs.host, location.path) then Ok(fs, TheFile(location)) else Panic(HostError)
          else if writeable || o.append || o.write then Panic(ReadonlyContent)
          else Ok(fs, TheFile(location))
        case Dir(_, _) => if o.write then Refused(fs) else Ok(fs, TheDirectory)
      else if !o.create || dir.host.None? then Refused(fs)
      else if '/' in name then Panic(Separator)
      else
        var p := dir.host.value + [name];
        if !Sensible(o) || !HostCanCreate(fs.host, p) then Panic(HostError)
        else
          Ok(Fs(SetEntry(fs.root, Parent(cs), name, Some(File(OnHost(p), true))), fs.host[p := HostFile]),
            TheFile(OnHost(p)))
  }

  /** A directory of the host with nothing in it. */
  predicate HostEmpty(host: Host, p: HostPath) {
    forall q :: q in host && q != [] ==> Parent(q) != p
  }

  function Remove(fs: Fs, cs: seq<string>): Outcome<()> {
    if cs == [] || !HasDir(fs.root, Parent(cs)) then Refused(fs)
    else
      var dir := At(fs.root, Parent(cs)).value;
      var name := Name(cs);
      if dir.host.None? || name !in dir.children then Refused(fs)
      else
        var rest := SetEntry(fs.root, Parent(cs), name, None);
        match dir.children[name]
        case File(location, writeable) =>
          if !writeable then Refused(fs)
          else if !location.OnHost? then Panic(ReadonlyContent)
          else if location.path !in fs.host || fs.host[location.path] != HostFile then Panic(HostError)
          else Ok(Fs(rest, fs.host - {location.path}), ())
        case Dir(children, host) =>
          if children != map[] || host.None? then Refused(fs)
          else if host.value !in fs.host || fs.host[host.value] != HostDir || !HostEmpty(fs.host, host.value) then
            Panic(HostError)
          else Ok(Fs(rest, fs.host - {host.value}), ())
  }

  function CreateDir(fs: Fs, cs: seq<string>): Outcome<Option<FsError>> {
    if cs == [] || At(fs.root, Parent(cs)).None? then Ok(fs, Some(NonexistentParentDir))
    else if At(fs.root, Parent(cs)).value.File? then Ok(fs, Some(InvalidParentDir))
    else
      var dir := At(fs.root, Parent(cs)).value;
      var name := Name(cs);
      if name in dir.children then Ok(fs, Some(AlreadyExist))
      else if dir.host.None? then Ok(fs, Some(ReadonlyParentDir))
      else if '/' in name then Panic(Separator)
      else
        var p := dir.host.value + [name];
        if p in fs.host || !HostCanCreate(fs.host, p) then Panic(HostError)
        else Ok(Fs(SetEntry(fs.root, Parent(cs), name, Some(Dir(map[], Some(p)))), fs.host[p := HostDir]), None)
  }

  /** `create_dir_all` once `path` is resolved: one directory per prefix, from the `k`-th on. */
  function CreateDirAll(fs: Fs, cs: seq<string>, k: nat): Outcome<Option<FsError>>
    requires k <= |cs|
    decreases |cs| - k
  {
    if k == |cs| then Ok(fs, None)
    else
      match CreateDir(fs, cs[..k + 1])
      case Ok(fs1, e) => if e == None || e == Some(AlreadyExist) then CreateDirAll(fs1, cs, k + 1) else Ok(fs1, e)
      case other => other
  }

  const CREATING: Options := Options(false, true, false, true, true)

  /** The second half of a rename, when both ends are writeable host files; `hostOk` is the host's answer. */
  function MoveFile(fs: Fs, from: seq<string>, f: HostPath, t: HostPath, hostOk: bool): Outcome<()> {
    if !hostOk || f !in fs.host || fs.host[f] != HostFile || !HostCanCreate(fs.host, t) then Refused(fs)
    else if from == [] || !HasDir(fs.root, Parent(from)) then Panic(NotImplemented)
    else Ok(Fs(SetEntry(fs.root, Parent(from), Name(from), None), (fs.host - {f})[t := HostFile]), ())
  }

  function Rename(fs: Fs, from: seq<string>, to: seq<string>, hostOk: bool): Outcome<()> {
    match At(fs.root, from)
    case None => Refused(fs)
    case Some(Dir(_, _)) => Panic(NotImplemented)
    case Some(File(location, writeable)) =>
      if !location.OnHost? then Refused(fs)
      else if !writeable then Panic(ReadonlyContent)
      else
        match (if At(fs.root, to).Some? then Ok(fs, TheDirectory) else OpenWithOptions(fs, to, CREATING))
        case Panic(why) => Panic(why)
        case Refused(_) => Refused(fs)
        case Ok(fs1, _) =>
          match At(fs1.root, to)
          case None => Panic(HostError)
          case Some(Dir(_, _)) => Refused(fs1)
          case Some(File(target, targetWriteable)) =>
            if !target.OnHost? then Refused(fs1)
            else if !targetWriteable then Panic(ReadonlyContent)
            else MoveFile(fs1, from, location.path, target.path, hostOk)
  }

  /** `host_path_for`: where a file is, or where it would be created. */
  function HostPathFor(fs: Fs, cs: seq<string>): Option<HostPath> {
    match At(fs.root, cs)
    case Some(File(OnHost(p), _)) => Some(p)
    case Some(_) => None
    case None =>
      if cs == [] || !HasDir(fs.root, Parent(cs)) then None
      else
        match At(fs.root, Parent(cs)).value.host
        case None => None
        case Some(h) => Some(h + [Name(cs)])
  }

  // ---------------------------------------------------------------- looking at trees

  /** What can be seen at a place in a tree without looking into subdirectories. */
  datatype Look = FileLook(location: Location, writeable: bool) | DirLook(names: set<string>, host: Option<HostPath>)

  function LookAt(n: Node, cs: seq<string>): Option<Look> {
    match At(n, cs)
    case None => None
    case Some(File(l, w)) => Some(FileLook(l, w))
    case Some(Dir(children, h)) => Some(DirLook(children.Keys, h))
  }

  lemma {:induction false} AtAppend(n: Node, cs: seq<string>, c: string)
    ensures At(n, cs + [c]) == match At(n, cs) case None => None case Some(m) => Child(m, c)
    decreases |cs|
  {
    if cs == [] {
      assert ([] + [c])[1..] == [];
    } else {
      assert (cs + [c])[1..] == cs[1..] + [c];
      if Child(n, cs[0]).Some? { AtAppend(Child(n, cs[0]).value, cs[1..], c); }
    }
  }

  lemma AtParent(n: Node, cs: seq<string>)
    requires cs != []
    ensures At(n, cs) == match At(n, Parent(cs)) case None => None case Some(m) => Child(m, Name(cs))
  {
    AtAppend(n, Parent(cs), Name(cs));
    assert Parent(cs) + [Name(cs)] == cs;
  }

  /** An entry without entries of its own, or none at all. */
  predicate Leaf(entry: Option<Node>) {
    entry.None? || entry.value.File? || entry.value.children == map[]
  }

  lemma LeafHasNoEntries(e: Node, cs: seq<string>)
    requires Leaf(Some(e)) && cs != []
    ensures At(e, cs).None?
  {
  }

  /** Replacing one leaf entry by another changes what is seen at that entry and in its directory, and nowhere else. */
  lemma {:induction false} LookAfterSetEntry(n: Node, ps: seq<string>, name: string, entry: Option<Node>,
          cs: seq<string>)
    requires HasDir(n, ps) && Leaf(entry) && Leaf(At(n, ps + [name]))
    ensures LookAt(SetEntry(n, ps, name, entry), cs) ==
            if cs == ps then
              Some(DirLook(if entry.Some? then At(n, ps).value.children.Keys + {name}
                else At(n, ps).value.children.Keys - {name},
                           At(n, ps).value.host))
            else if cs == ps + [name] then (if entry.None? then None else LookAt(entry.value, []))
            else LookAt(n, cs)
    decreases |ps|
  {
    var m := SetEntry(n, ps, name, entry);
    if ps == [] {
      if entry.Some? {
        assert m.children.Keys == n.children.Keys + {name};
      } else {
        assert m.children.Keys == n.children.Keys - {name};
      }
      if cs != [] {
        AtAppend(n, [], name);
        assert [] + [name] == [name];
        if cs[0] == name && cs[1..] != [] {
          if entry.Some? { LeafHasNoEntries(entry.value, cs[1..]); }
          if name in n.children { LeafHasNoEntries(n.children[name], cs[1..]); }
        }
        assert cs == [name] <==> cs[0] == name && cs[1..] == [];
      }
    } else {
      assert (ps + [name])[1..] == ps[1..] + [name];
      assert m.children.Keys == n.children.Keys;
      assert (ps + [name])[0] == ps[0];
      if cs != [] && cs[0] == ps[0] {
        LookAfterSetEntry(n.children[ps[0]], ps[1..], name, entry, cs[1..]);
        assert cs == [cs[0]] + cs[1..] && ps == [ps[0]] + ps[1..] && ps + [name] == [ps[0]] + (ps[1..] + [name]);
      }
    }
  }
}
