/**
 The filesystem an app starts with, built from directories of the host (src/fs.rs:72-125, 485-612), and
 whole sequences of operations on it.
 */
module FileStart {
  import opened Prelude
  import opened Paths
  import opened FileSystem
  import opened FileMirror
  import B = Bundles

  // ---------------------------------------------------------------- from_host_dir

  /** The names of what lies directly in `p`. */
  ghost function NamesIn(host: Host, p: HostPath): set<string> {
    set q | q in host && q != [] && Parent(q) == p :: Name(q)
  }

  ghost function Below(host: Host, p: HostPath): set<HostPath> {
    set q | q in host && p < q
  }

  lemma NamesInAre(host: Host, p: HostPath, name: string)
    ensures name in NamesIn(host, p) <==> p + [name] in host
  {
    if p + [name] in host { assert Parent(p + [name]) == p && Name(p + [name]) == name; }
    if name in NamesIn(host, p) {
      var q :| q in host && q != [] && Parent(q) == p && Name(q) == name;
      assert q == p + [name];
    }
  }

  lemma BelowShrinks(host: Host, p: HostPath, name: string)
    requires p + [name] in host
    ensures |Below(host, p + [name])| < |Below(host, p)|
  {
    assert p < p + [name];
    assert p + [name] in Below(host, p) && p + [name] !in Below(host, p + [name]);
    SmallerSet(Below(host, p + [name]), Below(host, p));
  }

  lemma SmallerSet<T>(a: set<T>, b: set<T>)
    requires a < b
    ensures |a| < |b|
  {
    var x :| x in b && x !in a;
    assert a <= b - {x};
    SmallerOrEqual(a, b - {x});
  }

  lemma SmallerOrEqual<T>(a: set<T>, b: set<T>)
    requires a <= b
    ensures |a| <= |b|
  {
    if a != {} {
      var x :| x in a;
      SmallerOrEqual(a - {x}, b - {x});
    }
  }

  ghost function FromHostDir(host: Host, p: HostPath, writeable: bool): Node
    decreases |Below(host, p)|
  {
    Dir(map name | name in NamesIn(host, p) ::
          NamesInAre(host, p, name);
          if host[p + [name]] == HostFile then File(OnHost(p + [name]), writeable)
          else
            BelowShrinks(host, p, name);
            FromHostDir(host, p + [name], writeable),
        if writeable then Some(p) else None)
  }

  /** How the host's entry at `p` looks from the guest. */
  ghost function HostLook(host: Host, p: HostPath, writeable: bool): Option<Look> {
    if p !in host then None
    else if host[p] == HostFile then Some(FileLook(OnHost(p), writeable))
    else Some(DirLook(NamesIn(host, p), if writeable then Some(p) else None))
  }

  lemma {:induction false} NothingInFiles(host: Host, p: HostPath, cs: seq<string>)
    requires HostIsTree(host) && (p !in host || host[p] == HostFile) && cs != []
    ensures p + cs !in host
    decreases |cs|
  {
    var q := p + cs;
    assert Parent(q) == p + Parent(cs);
    if Parent(cs) != [] { NothingInFiles(host, p, Parent(cs)); } else { assert p + Parent(cs) == p; }
  }

  /** The tree made from a host directory looks everywhere as the host does. */
  lemma {:induction false} FromHostDirLooks(host: Host, p: HostPath, writeable: bool, cs: seq<string>)
    requires HostIsTree(host) && p in host && host[p] == HostDir
    ensures LookAt(FromHostDir(host, p, writeable), cs) == HostLook(host, p + cs, writeable)
    decreases |cs|
  {
    var n := FromHostDir(host, p, writeable);
    if cs == [] {
      assert p + cs == p;
      assert n.children.Keys == NamesIn(host, p);
    } else {
      var q := p + [cs[0]];
      NamesInAre(host, p, cs[0]);
      assert p + cs == q + cs[1..];
      if q in host && host[q] == HostDir {
        FromHostDirLooks(host, q, writeable, cs[1..]);
      } else if cs[1..] != [] {
        NothingInFiles(host, q, cs[1..]);
        if q in host {
          assert n.children[cs[0]].File?;
          LeafHasNoEntries(n.children[cs[0]], cs[1..]);
        } else {
          assert Child(n, cs[0]).None?;
        }
      } else {
        assert q + cs[1..] == q;
        if q in host {
          assert n.children[cs[0]] == File(OnHost(q), writeable);
          assert At(n, cs) == At(n.children[cs[0]], []);
        } else {
          assert Child(n, cs[0]).None?;
        }
      }
    }
  }

  // ---------------------------------------------------------------- the initial layout

  function Nest(path: seq<string>, n: Node): Node {
    if path == [] then n else Dir(map[path[0] := Nest(path[1..], n)], None)
  }

  const APP_DIR: seq<string> := ["var", "mobile", "Applications", "00000000-0000-0000-0000-000000000000"]

  /** The app's directory: its bundle, and the writeable directories backed by `mounts`. */
  ghost function AppDirectory(host: Host, bundleName: string, bundle: Node, mounts: map<string, HostPath>): Node {
    Dir(map[bundleName := bundle] + (map d | d in mounts :: FromHostDir(host, mounts[d], true)), None)
  }

  function Library(name: string): Node { File(Resource("touchHLE_dylibs/" + name), false) }

  const USR: Node :=
    Dir(map["lib" := Dir(map[
      "libgcc_s.1.dylib" := Library("libgcc_s.1.dylib"),
      "libstdc++.6.dylib" := Library("libstdc++.6.0.9.dylib"),
      "libstdc++.6.0.9.dylib" := Library("libstdc++.6.0.9.dylib"),
      "libz.1.2.3.dylib" := Library("libz.1.2.3.dylib"),
      "libz.1.dylib" := Library("libz.1.2.3.dylib"),
      "libz.dylib" := Library("libz.1.2.3.dylib"),
      "libz.1.1.3.dylib" := Library("libz.1.2.3.dylib")], None)], None)

  ghost function InitialRoot(host: Host, bundleName: string, bundle: Node, mounts: map<string, HostPath>): Node {
    Dir(map["var" := Nest(APP_DIR[1..], AppDirectory(host, bundleName, bundle, mounts)), "usr" := USR], None)
  }

  predicate ReadOnlyLook(l: Option<Look>) {
    match l
    case Some(FileLook(_, w)) => !w
    case Some(DirLook(_, h)) => h.None?
    case None => true
  }

  ghost predicate ReadOnly(n: Node) { forall cs: seq<string> :: ReadOnlyLook(LookAt(n, cs)) }

  // ---------------------------------------------------------------- bundles are read-only

  datatype BundleData = HostDirectory(path: HostPath) | Zip(entries: seq<B.Entry>)

  /** `into_fs_node`; `None` where it panics. */
  ghost function IntoFsNode(host: Host, bundle: BundleData): Option<Node> {
    match bundle
    case HostDirectory(p) => if p in host && host[p] == HostDir then Some(FromHostDir(host, p, false)) else None
    case Zip(entries) => B.BuildEntries(entries)
  }

  /** Nothing in the tree is writeable. */
  predicate NoneWriteable(n: Node) {
    match n
    case File(_, writeable) => !writeable
    case Dir(children, host) => host.None? && forall c :: c in children ==> NoneWriteable(children[c])
  }

  lemma {:induction false} NoneWriteableAt(n: Node, cs: seq<string>)
    requires NoneWriteable(n)
    ensures ReadOnlyLook(LookAt(n, cs))
    decreases |cs|
  {
    if cs != [] && Child(n, cs[0]).Some? { NoneWriteableAt(Child(n, cs[0]).value, cs[1..]); }
  }

  lemma NoneWriteableIsReadOnly(n: Node)
    requires NoneWriteable(n)
    ensures ReadOnly(n)
  {
    forall cs: seq<string> ensures ReadOnlyLook(LookAt(n, cs)) { NoneWriteableAt(n, cs); }
  }

  lemma {:induction false} MakingDirsKeeps(n: Node, ps: seq<string>)
    requires NoneWriteable(n) && B.MakeDirs(n, ps).Some?
    ensures NoneWriteable(B.MakeDirs(n, ps).value)
    decreases |ps|
  {
    if ps != [] {
      var next := if ps[0] in n.children then n.children[ps[0]] else Dir(map[], None);
      MakingDirsKeeps(next, ps[1..]);
    }
  }

  lemma {:induction false} SettingKeeps(n: Node, ps: seq<string>, name: string, entry: Node)
    requires NoneWriteable(n) && HasDir(n, ps) && NoneWriteable(entry)
    ensures NoneWriteable(SetEntry(n, ps, name, Some(entry)))
    decreases |ps|
  {
    if ps != [] { SettingKeeps(n.children[ps[0]], ps[1..], name, entry); }
  }

  lemma {:induction false} BuiltIsReadOnly(items: seq<B.Item>)
    requires B.Build(items).Some?
    ensures NoneWriteable(B.Build(items).value)
    decreases |items|
  {
    if items != [] {
      var item, n := items[|items| - 1], B.Build(items[..|items| - 1]).value;
      BuiltIsReadOnly(items[..|items| - 1]);
      MakingDirsKeeps(n, item.dir);
      if item.FileItem? {
        SettingKeeps(B.MakeDirs(n, item.dir).value, item.dir, item.name, File(InArchive(item.entry), false));
      }
    }
  }

  /**
   Whether it comes from a directory of the host or from an archive in any order, a bundle is
   read-only throughout.
   */
  lemma BundleIsReadOnly(host: Host, bundle: BundleData)
    requires HostIsTree(host) && IntoFsNode(host, bundle).Some?
    ensures ReadOnly(IntoFsNode(host, bundle).value)
  {
    match bundle
    case HostDirectory(p) =>
      forall cs: seq<string> ensures ReadOnlyLook(LookAt(FromHostDir(host, p, false), cs)) {
        FromHostDirLooks(host, p, false, cs);
      }
    case Zip(entries) =>
      BuiltIsReadOnly(B.ParseAll(entries).value);
      NoneWriteableIsReadOnly(IntoFsNode(host, bundle).value);
  }

  lemma UsrIsReadOnly()
    ensures ReadOnly(USR)
  {
    var lib := USR.children["lib"];
    assert NoneWriteable(lib);
    NoneWriteableIsReadOnly(USR);
  }

  lemma {:induction false} NestLooks(path: seq<string>, n: Node, cs: seq<string>)
    ensures path <= cs ==> LookAt(Nest(path, n), cs) == LookAt(n, cs[|path|..])
    ensures !(path <= cs) ==> ReadOnlyLook(LookAt(Nest(path, n), cs))
    decreases |path|
  {
    if path != [] && cs != [] && cs[0] == path[0] {
      NestLooks(path[1..], n, cs[1..]);
      assert path <= cs <==> path[1..] <= cs[1..] by {
        assert path == [path[0]] + path[1..] && cs == [cs[0]] + cs[1..];
      }
      if path <= cs { assert cs[1..][|path| - 1..] == cs[|path|..]; }
    } else if path == [] {
      assert cs[0..] == cs;
    }
  }

  lemma {:induction false} NestDirs(path: seq<string>, n: Node, k: nat)
    requires k < |path|
    ensures LookAt(Nest(path, n), path[..k]) == Some(DirLook({path[k]}, None))
    decreases |path|
  {
    if k == 0 {
      assert Nest(path, n).children.Keys == {path[0]};
    } else {
      NestDirs(path[1..], n, k - 1);
      assert path[..k][1..] == path[1..][..k - 1];
    }
  }

  /** The app's directory lies four directories down. */
  lemma {:induction false} AppDirIsPlaced(host: Host, bundleName: string, bundle: Node, mounts: map<string, HostPath>,
          rest: seq<string>)
    ensures LookAt(InitialRoot(host, bundleName, bundle, mounts), APP_DIR + rest) ==
            LookAt(AppDirectory(host, bundleName, bundle, mounts), rest)
  {
    hide AppDirectory, Nest;
    var path, app := APP_DIR[1..], AppDirectory(host, bundleName, bundle, mounts);
    assert (APP_DIR + rest)[1..] == path + rest && (path + rest)[|path|..] == rest;
    NestLooks(path, app, path + rest);
  }

  lemma {:induction false} DirsAboveApp(host: Host, bundleName: string, bundle: Node, mounts: map<string, HostPath>,
          k: nat)
    requires k < 3
    ensures LookAt(InitialRoot(host, bundleName, bundle, mounts), APP_DIR[..k + 1]) ==
            Some(DirLook({APP_DIR[k + 1]}, None))
  {
    hide AppDirectory, Nest;
    var path := APP_DIR[1..];
    assert APP_DIR[..k + 1][1..] == path[..k] && path[k] == APP_DIR[k + 1];
    NestDirs(path, AppDirectory(host, bundleName, bundle, mounts), k);
  }

  /** The directories above the app's, what is in it, and the bundle as it came. */
  lemma {:induction false} AppIsPlaced(host: Host, bundleName: string, bundle: Node, mounts: map<string, HostPath>,
          cs: seq<string>)
    ensures var root := InitialRoot(host, bundleName, bundle, mounts);
            && LookAt(root, []) == Some(DirLook({"var", "usr"}, None))
            && LookAt(root, ["var"]) == Some(DirLook({"mobile"}, None))
            && LookAt(root, ["var", "mobile"]) == Some(DirLook({"Applications"}, None))
            && LookAt(root, ["var", "mobile", "Applications"]) ==
                 Some(DirLook({"00000000-0000-0000-0000-000000000000"}, None))
            && LookAt(root, APP_DIR) == Some(DirLook({bundleName} + mounts.Keys, None))
            && (bundleName !in mounts ==> LookAt(root, APP_DIR + [bundleName] + cs) == LookAt(bundle, cs))
  {
    var root := InitialRoot(host, bundleName, bundle, mounts);
    assert root.children.Keys == {"var", "usr"};
    hide InitialRoot, LookAt;
    DirsAboveApp(host, bundleName, bundle, mounts, 0);
    DirsAboveApp(host, bundleName, bundle, mounts, 1);
    DirsAboveApp(host, bundleName, bundle, mounts, 2);
    assert APP_DIR[..1] == ["var"] && APP_DIR[..2] == ["var", "mobile"];
    assert APP_DIR[..3] == ["var", "mobile", "Applications"];
    AppDirIsPlaced(host, bundleName, bundle, mounts, []);
    AppDirIsPlaced(host, bundleName, bundle, mounts, [bundleName] + cs);
    assert APP_DIR + [] == APP_DIR && APP_DIR + [bundleName] + cs == APP_DIR + ([bundleName] + cs);
    AppContents(host, bundleName, bundle, mounts, cs);
  }

  lemma {:induction false} AppContents(host: Host, bundleName: string, bundle: Node, mounts: map<string, HostPath>,
          cs: seq<string>)
    ensures var app := AppDirectory(host, bundleName, bundle, mounts);
            && LookAt(app, []) == Some(DirLook({bundleName} + mounts.Keys, None))
            && (bundleName !in mounts ==> LookAt(app, [bundleName] + cs) == LookAt(bundle, cs))
  {
    hide FromHostDir;
    assert AppDirectory(host, bundleName, bundle, mounts).children.Keys == {bundleName} + mounts.Keys;
    assert ([bundleName] + cs)[1..] == cs;
  }

  /** The library found under a name in the libraries' directory; some names stand for another. */
  function LibraryFor(name: string): Option<string> {
    if name == "libgcc_s.1.dylib" || name == "libstdc++.6.0.9.dylib" || name == "libz.1.2.3.dylib" then Some(name)
    else if name == "libstdc++.6.dylib" then Some("libstdc++.6.0.9.dylib")
    else if name == "libz.dylib" || name == "libz.1.dylib" || name == "libz.1.1.3.dylib" then Some("libz.1.2.3.dylib")
    else None
  }

  /** The libraries that come with the emulator, and nothing else, are in /usr/lib. */
  lemma {:induction false} LibrariesArePlaced(host: Host, bundleName: string, bundle: Node,
          mounts: map<string, HostPath>, name: string)
    ensures var root := InitialRoot(host, bundleName, bundle, mounts);
            && LookAt(root, ["usr"]) == Some(DirLook({"lib"}, None))
            && LookAt(root, ["usr", "lib"]).Some? && LookAt(root, ["usr", "lib"]).value.DirLook?
            && LookAt(root, ["usr", "lib", name]) ==
                 match LibraryFor(name)
                 case None => None
                 case Some(file) => Some(FileLook(Resource("touchHLE_dylibs/" + file), false))
  {
    hide InitialRoot, LookAt;
    UsrIsPlaced(host, bundleName, bundle, mounts, []);
    UsrIsPlaced(host, bundleName, bundle, mounts, ["lib"]);
    UsrIsPlaced(host, bundleName, bundle, mounts, ["lib", name]);
    assert ["usr"] + [] == ["usr"] && ["usr"] + ["lib"] == ["usr", "lib"];
    assert ["usr"] + ["lib", name] == ["usr", "lib", name] && ["lib"] + [name] == ["lib", name];
    LibIsInUsr([]);
    LibIsInUsr([name]);
    assert ["lib"] + [] == ["lib"];
    LibraryIsInLib(name);
  }

  lemma {:induction false} UsrIsPlaced(host: Host, bundleName: string, bundle: Node, mounts: map<string, HostPath>,
          cs: seq<string>)
    ensures LookAt(InitialRoot(host, bundleName, bundle, mounts), ["usr"] + cs) == LookAt(USR, cs)
  {
    hide AppDirectory, Nest;
    assert (["usr"] + cs)[1..] == cs;
  }

  lemma {:induction false} LibIsInUsr(cs: seq<string>)
    ensures LookAt(USR, []) == Some(DirLook({"lib"}, None))
    ensures LookAt(USR, ["lib"] + cs) == LookAt(USR.children["lib"], cs)
  {
    assert USR.children.Keys == {"lib"};
    assert (["lib"] + cs)[1..] == cs;
  }

  lemma {:induction false} LibraryIsInLib(name: string)
    ensures LookAt(USR.children["lib"], []).Some? && LookAt(USR.children["lib"], []).value.DirLook?
    ensures LookAt(USR.children["lib"], [name]) ==
            match LibraryFor(name)
            case None => None
            case Some(file) => Some(FileLook(Resource("touchHLE_dylibs/" + file), false))
  {
    var lib := USR.children["lib"];
    AtAppend(lib, [], name);
    assert [] + [name] == [name] && At(lib, []) == Some(lib);
    assert name in lib.children <==> LibraryFor(name).Some?;
  }

  /** `cs` leads into the writeable directory `cs[4]` of the app. */
  predicate InMount(mounts: map<string, HostPath>, cs: seq<string>) {
    |cs| > |APP_DIR| && APP_DIR <= cs && cs[|APP_DIR|] in mounts
  }

  function MountPath(mounts: map<string, HostPath>, cs: seq<string>): HostPath
    requires InMount(mounts, cs)
  {
    mounts[cs[|APP_DIR|]] + cs[|APP_DIR| + 1..]
  }

  ghost predicate MountsOk(host: Host, mounts: map<string, HostPath>) {
    && HostIsTree(host)
    && (forall d :: d in mounts ==> mounts[d] in host && host[mounts[d]] == HostDir)
    && (forall d, e :: d in mounts && e in mounts && d != e ==> !(mounts[d] <= mounts[e]))
  }

  lemma AppLooks(host: Host, bundleName: string, bundle: Node, mounts: map<string, HostPath>, rest: seq<string>)
    requires MountsOk(host, mounts) && ReadOnly(bundle)
    ensures var app := AppDirectory(host, bundleName, bundle, mounts);
            if rest != [] && rest[0] in mounts then
              LookAt(app, rest) == HostLook(host, mounts[rest[0]] + rest[1..], true)
            else ReadOnlyLook(LookAt(app, rest))
  {
    hide HostLook, FromHostDir, ReadOnlyLook;
    var app := AppDirectory(host, bundleName, bundle, mounts);
    if rest == [] {
      assert ReadOnlyLook(LookAt(app, rest)) by { DirIsReadOnly(app); }
    } else if rest[0] in mounts {
      FromHostDirLooks(host, mounts[rest[0]], true, rest[1..]);
    } else if rest[0] == bundleName {
      assert ReadOnlyLook(LookAt(bundle, rest[1..]));
    } else {
      NothingIsReadOnly();
    }
  }

  lemma DirIsReadOnly(n: Node)
    requires n.Dir? && n.host.None?
    ensures ReadOnlyLook(LookAt(n, []))
  {
  }

  lemma NothingIsReadOnly()
    ensures ReadOnlyLook(None)
  {
  }

  /** Everything in the initial tree is read-only but the writeable directories, which look as the host does. */
  lemma InitialLooks(host: Host, bundleName: string, bundle: Node, mounts: map<string, HostPath>, cs: seq<string>)
    requires MountsOk(host, mounts) && ReadOnly(bundle)
    ensures var root := InitialRoot(host, bundleName, bundle, mounts);
            if InMount(mounts, cs) then LookAt(root, cs) == HostLook(host, MountPath(mounts, cs), true)
            else ReadOnlyLook(LookAt(root, cs))
  {
    hide HostLook, AppDirectory, Nest, MountsOk, HostIsTree;
    var app := AppDirectory(host, bundleName, bundle, mounts);
    if cs != [] && cs[0] == "var" {
      NestLooks(APP_DIR[1..], app, cs[1..]);
      assert APP_DIR <= cs <==> APP_DIR[1..] <= cs[1..] by {
        assert APP_DIR == ["var"] + APP_DIR[1..] && cs == ["var"] + cs[1..];
      }
      if APP_DIR <= cs {
        var rest := cs[|APP_DIR|..];
        assert cs[1..][|APP_DIR| - 1..] == rest;
        AppLooks(host, bundleName, bundle, mounts, rest);
        assert rest != [] ==> rest[0] == cs[|APP_DIR|] && rest[1..] == cs[|APP_DIR| + 1..];
      }
    } else if cs != [] && cs[0] == "usr" {
      UsrIsReadOnly();
      assert ReadOnlyLook(LookAt(USR, cs[1..]));
    }
  }

  lemma {:induction false} PrefixesCompare(a: HostPath, b: HostPath, p: HostPath)
    requires a <= p && b <= p
    ensures a <= b || b <= a
  {
    if |a| <= |b| { assert p[..|b|][..|a|] == p[..|a|]; } else { assert p[..|a|][..|b|] == p[..|b|]; }
  }

  lemma MountPathsDiffer(host: Host, mounts: map<string, HostPath>, cs: seq<string>, ds: seq<string>)
    requires MountsOk(host, mounts) && InMount(mounts, cs) && InMount(mounts, ds) &&
             MountPath(mounts, cs) == MountPath(mounts, ds)
    ensures cs == ds
  {
    var n := |APP_DIR|;
    var a, b := mounts[cs[n]], mounts[ds[n]];
    var p := MountPath(mounts, cs);
    assert a <= p && b <= p;
    PrefixesCompare(a, b, p);
    assert cs[n] == ds[n];
    assert cs[n + 1..] == p[|a|..] == ds[n + 1..];
    assert cs == APP_DIR + [cs[n]] + cs[n + 1..] && ds == APP_DIR + [ds[n]] + ds[n + 1..];
  }

  lemma RootMirrors(host: Host, bundleName: string, bundle: Node, mounts: map<string, HostPath>)
    requires MountsOk(host, mounts) && ReadOnly(bundle)
    ensures Mirrors(Fs(InitialRoot(host, bundleName, bundle, mounts), host))
  {
    var root := InitialRoot(host, bundleName, bundle, mounts);
    var fs := Fs(root, host);
    hide InitialRoot, LookAt;
    forall cs: seq<string>, ds: seq<string> | DirHost(root, cs).Some? && DirHost(root, cs) == DirHost(root, ds)
      ensures cs == ds
    {
      InitialLooks(host, bundleName, bundle, mounts, cs);
      InitialLooks(host, bundleName, bundle, mounts, ds);
      MountPathsDiffer(host, mounts, cs, ds);
    }
    forall cs: seq<string> ensures DirMirrors(fs, cs) && FileMirrors(fs, cs) {
      InitialLooks(host, bundleName, bundle, mounts, cs);
      if DirHost(root, cs).Some? {
        var h := DirHost(root, cs).value;
        forall name: string ensures EntryMirrors(fs, cs, h, name) {
          InitialLooks(host, bundleName, bundle, mounts, cs + [name]);
          assert MountPath(mounts, cs + [name]) == h + [name];
        }
      }
      if InMount(mounts, cs) && LookAt(root, cs).Some? && LookAt(root, cs).value.FileLook? {
        FileInMount(host, mounts, cs, root, bundleName, bundle);
      }
    }
  }

  /** The root an app starts with; `None` where its bundle cannot be read. */
  ghost function StartRoot(host: Host, bundleName: string, bundle: BundleData,
          mounts: map<string, HostPath>): Option<Node> {
    match IntoFsNode(host, bundle) case None => None case Some(n) => Some(InitialRoot(host, bundleName, n, mounts))
  }

  /** The filesystem an app starts with mirrors the host, wherever its bundle comes from. */
  lemma StartMirrors(host: Host, bundleName: string, bundle: BundleData, mounts: map<string, HostPath>)
    requires MountsOk(host, mounts)
    ensures var root := StartRoot(host, bundleName, bundle, mounts); root.Some? ==> Mirrors(Fs(root.value, host))
  {
    if StartRoot(host, bundleName, bundle, mounts).Some? {
      BundleIsReadOnly(host, bundle);
      RootMirrors(host, bundleName, IntoFsNode(host, bundle).value, mounts);
    }
  }

  lemma FileInMount(host: Host, mounts: map<string, HostPath>, cs: seq<string>, root: Node, bundleName: string,
          bundle: Node)
    requires MountsOk(host, mounts) && ReadOnly(bundle) && root == InitialRoot(host, bundleName, bundle, mounts)
    requires InMount(mounts, cs) && LookAt(root, cs).Some? && LookAt(root, cs).value.FileLook?
    ensures DirHost(root, Parent(cs)).Some?
  {
    hide InitialRoot, LookAt;
    var n := |APP_DIR|;
    InitialLooks(host, bundleName, bundle, mounts, cs);
    InitialLooks(host, bundleName, bundle, mounts, Parent(cs));
    var p := MountPath(mounts, cs);
    MountIsDir(host, mounts, cs);
    assert Parent(cs)[n + 1..] == Parent(cs[n + 1..]);
    assert Parent(p) == MountPath(mounts, Parent(cs));
  }

  lemma MountIsDir(host: Host, mounts: map<string, HostPath>, cs: seq<string>)
    requires MountsOk(host, mounts) && InMount(mounts, cs)
    ensures cs[|APP_DIR| + 1..] == [] ==> MountPath(mounts, cs) in host && host[MountPath(mounts, cs)] == HostDir
  {
    assert cs[|APP_DIR| + 1..] == [] ==> MountPath(mounts, cs) == mounts[cs[|APP_DIR|]];
  }

  // ---------------------------------------------------------------- sequences of operations

  datatype Op =
    | OpOpen(path: seq<string>, options: Options)
    | OpRemove(path: seq<string>)
    | OpCreateDir(path: seq<string>)
    | OpCreateDirAll(path: seq<string>)
    | OpRename(from: seq<string>, to: seq<string>, hostOk: bool)

  /** The state after an operation that does not end the emulator. */
  ghost function Apply(fs: Fs, op: Op): Option<Fs> {
    match op
    case OpOpen(path, options) =>
      (match OpenWithOptions(fs, path, options) case Ok(fs1, _) => Some(fs1) case Refused(fs1) => Some(fs1)
        case Panic(_) => None)
    case OpRemove(path) =>
      (match Remove(fs, path) case Ok(fs1, _) => Some(fs1) case Refused(fs1) => Some(fs1) case Panic(_) => None)
    case OpCreateDir(path) =>
      (match CreateDir(fs, path) case Ok(fs1, _) => Some(fs1) case Refused(fs1) => Some(fs1) case Panic(_) => None)
    case OpCreateDirAll(path) =>
      (match CreateDirAll(fs, path, 0) case Ok(fs1, _) => Some(fs1) case Refused(fs1) => Some(fs1)
        case Panic(_) => None)
    case OpRename(from, to, hostOk) =>
      (match Rename(fs, from, to, hostOk) case Ok(fs1, _) => Some(fs1) case Refused(fs1) => Some(fs1)
        case Panic(_) => None)
  }

  ghost function ApplyEach(fs: Fs, ops: seq<Op>): Option<Fs>
    decreases |ops|
  {
    if ops == [] then Some(fs)
    else
      match ApplyEach(fs, ops[..|ops| - 1])
      case None => None
      case Some(fs1) => Apply(fs1, ops[|ops| - 1])
  }

  predicate RootIsReadOnlyDir(n: Node) { n.Dir? && n.host.None? }

  lemma OpKeeps(fs: Fs, op: Op)
    requires Mirrors(fs) && RootIsReadOnlyDir(fs.root) && (op.OpRename? ==> op.from != op.to)
    ensures var r := Apply(fs, op);
            r.Some? ==> Mirrors(r.value) && ReadOnlyKept(fs.root, r.value.root) && RootIsReadOnlyDir(r.value.root)
  {
    hide Mirrors, ReadOnlyKept, OpenWithOptions, Remove, CreateDir, CreateDirAll, Rename;
    ReadOnlyReflexive(fs);
    match op {
      case OpOpen(path, options) => OpenKeeps(fs, path, options);
      case OpRemove(path) => RemoveKeeps(fs, path);
      case OpCreateDir(path) => CreateDirKeeps(fs, path);
      case OpCreateDirAll(path) => CreateDirAllKeeps(fs, path, 0);
      case OpRename(from, to, hostOk) => RenameKeeps(fs, from, to, hostOk);
    }
    if Apply(fs, op).Some? { RootStays(fs, Apply(fs, op).value); }
  }

  lemma RootStays(a: Fs, b: Fs)
    requires RootIsReadOnlyDir(a.root) && ReadOnlyKept(a.root, b.root)
    ensures RootIsReadOnlyDir(b.root)
  {
    assert LookAt(b.root, []) == LookAt(a.root, []);
  }

  /**
   After any sequence of opens, removals, directory creations and renames between different paths,
   the writeable guest tree has exactly the host's structure, and no read-only directory has changed.
   */
  lemma {:induction false} OperationsKeepMirror(fs: Fs, ops: seq<Op>)
    requires Mirrors(fs) && RootIsReadOnlyDir(fs.root)
    requires forall k :: 0 <= k < |ops| && ops[k].OpRename? ==> ops[k].from != ops[k].to
    ensures var r := ApplyEach(fs, ops);
            r.Some? ==> Mirrors(r.value) && ReadOnlyKept(fs.root, r.value.root) && RootIsReadOnlyDir(r.value.root)
    decreases |ops|
  {
    hide Mirrors, ReadOnlyKept, Apply;
    if ops == [] {
      ReadOnlyReflexive(fs);
    } else {
      var n := |ops| - 1;
      OperationsKeepMirror(fs, ops[..n]);
      if ApplyEach(fs, ops).Some? {
        var fs1 := ApplyEach(fs, ops[..n]).value;
        OpKeeps(fs1, ops[n]);
        ReadOnlyTransitive(fs.root, fs1.root, ApplyEach(fs, ops).value.root);
      }
    }
  }

  /** From the start of the app on, whatever it does to its files, the guest tree is the host's. */
  lemma AppKeepsMirror(host: Host, bundleName: string, bundle: BundleData, mounts: map<string, HostPath>, ops: seq<Op>)
    requires MountsOk(host, mounts) && StartRoot(host, bundleName, bundle, mounts).Some?
    requires forall k :: 0 <= k < |ops| && ops[k].OpRename? ==> ops[k].from != ops[k].to
    ensures var root := StartRoot(host, bundleName, bundle, mounts).value;
            var r := ApplyEach(Fs(root, host), ops);
            r.Some? ==> Mirrors(r.value) && ReadOnlyKept(root, r.value.root)
  {
    StartMirrors(host, bundleName, bundle, mounts);
    OperationsKeepMirror(Fs(StartRoot(host, bundleName, bundle, mounts).value, host), ops);
  }
}
