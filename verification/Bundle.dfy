/**
 The tree of an app archive, built from entries in any order (src/fs/bundle.rs:19-68, 157-180).
 */
module Bundles {
  import opened Prelude
  import opened Paths
  import opened FileSystem
  import Listing

  /** An entry with its path split: the directory it is in, and for a file its name and its place in the archive. */
  datatype Item = FileItem(dir: seq<string>, name: string, entry: string) | DirItem(dir: seq<string>)

  datatype Entry = FileEntry(path: string, entry: string) | DirEntry(path: string)

  function NonEmpty(parts: seq<string>): seq<string> {
    if parts == [] then []
    else NonEmpty(parts[..|parts| - 1]) + (if parts[|parts| - 1] == "" then [] else [parts[|parts| - 1]])
  }

  /** How the paths are taken apart; `None` where that panics. */
  function Parse(e: Entry): Option<Item> {
    match e
    case DirEntry(path) => Some(DirItem(NonEmpty(Split(path))))
    case FileEntry(path, entry) =>
      var parts := Split(path);
      if path != "" && path[|path| - 1] == '/' then None
      else if |parts| < 2 then None
      else Some(FileItem(NonEmpty(parts[..|parts| - 1]), parts[|parts| - 1], entry))
  }

  /** The place an entry's path stands for: its non-empty pieces. */
  function Place(e: Entry): seq<string> { NonEmpty(Split(e.path)) }

  lemma {:induction false} SplitEndsEmpty(s: string)
    ensures Split(s)[|Split(s)| - 1] == "" <==> s == "" || s[|s| - 1] == '/'
    decreases |s|
  {
    if |s| == 1 {
      assert Split(s[1..]) == [""];
    } else if s != "" {
      SplitEndsEmpty(s[1..]);
    }
  }

  /** Taken apart, a path still stands for its place: a file's name is what follows the last slash. */
  lemma {:induction false} ParsedPlace(e: Entry)
    requires Parse(e).Some?
    ensures var item := Parse(e).value;
            Place(e) == item.dir + (if item.FileItem? then [item.name] else []) && (item.FileItem? <==> e.FileEntry?)
  {
    if e.FileEntry? {
      var parts := Split(e.path);
      SplitEndsEmpty(e.path);
      assert Split("") == [""];
    }
  }

  /** Every entry taken apart; `None` if one cannot be. */
  function ParseAll(entries: seq<Entry>): (r: Option<seq<Item>>)
    ensures r.Some? ==> |r.value| == |entries|
  {
    if entries == [] then Some([])
    else
      match (ParseAll(entries[..|entries| - 1]), Parse(entries[|entries| - 1]))
      case (Some(items), Some(item)) => Some(items + [item])
      case _ => None
  }

  lemma {:induction false} ParseAllAt(entries: seq<Entry>, k: nat)
    requires ParseAll(entries).Some? && k < |entries|
    ensures Parse(entries[k]) == Some(ParseAll(entries).value[k])
    decreases |entries|
  {
    if k < |entries| - 1 { ParseAllAt(entries[..|entries| - 1], k); }
  }

  lemma {:induction false} ParseAllIff(entries: seq<Entry>)
    ensures ParseAll(entries).Some? <==> forall e :: e in entries ==> Parse(e).Some?
    decreases |entries|
  {
    hide Parse;
    if entries != [] {
      var n := |entries| - 1;
      ParseAllIff(entries[..n]);
      assert entries == entries[..n] + [entries[n]];
    }
  }

  /** The tree with directories made along `ps`; `None` where `find_or_make_directory` panics. */
  function MakeDirs(n: Node, ps: seq<string>): Option<Node>
    decreases |ps|
  {
    if ps == [] then Some(n)
    else if ps[0] == ".." || n.File? then None
    else
      match MakeDirs(if ps[0] in n.children then n.children[ps[0]] else Dir(map[], None), ps[1..])
      case None => None
      case Some(m) => Some(n.(children := n.children[ps[0] := m]))
  }

  function AddItem(n: Node, item: Item): Option<Node> {
    match MakeDirs(n, item.dir)
    case None => None
    case Some(m) =>
      if item.DirItem? then Some(m)
      else if item.name == ".." || !HasDir(m, item.dir) then None
      else Some(SetEntry(m, item.dir, item.name, Some(File(InArchive(item.entry), false))))
  }

  function Build(items: seq<Item>): Option<Node>
    decreases |items|
  {
    if items == [] then Some(Dir(map[], None))
    else match Build(items[..|items| - 1]) case None => None case Some(n) => AddItem(n, items[|items| - 1])
  }

  /** The tree of an archive's entries; `None` where building it panics. */
  function BuildEntries(entries: seq<Entry>): Option<Node> {
    match ParseAll(entries) case None => None case Some(items) => Build(items)
  }

  // ---------------------------------------------------------------- what the tree should be

  predicate FileAt(item: Item, cs: seq<string>) { item.FileItem? && item.dir + [item.name] == cs }

  predicate DirAlong(item: Item, cs: seq<string>) { cs <= item.dir }

  ghost predicate SomeFile(items: seq<Item>, cs: seq<string>) {
    exists k :: 0 <= k < |items| && FileAt(items[k], cs)
  }

  ghost predicate SomeDir(items: seq<Item>, cs: seq<string>) {
    cs == [] || exists k :: 0 <= k < |items| && DirAlong(items[k], cs)
  }

  predicate NoParents(item: Item) {
    ".." !in item.dir && (item.FileItem? ==> item.name != "..")
  }

  /** No entry is both a file and a directory, or two different files, and none leads upwards. */
  ghost predicate ConflictFree(items: seq<Item>) {
    && (forall k :: 0 <= k < |items| ==> NoParents(items[k]))
    && (forall j, k :: 0 <= j < |items| && 0 <= k < |items| && items[j].FileItem? ==>
          !DirAlong(items[k], items[j].dir + [items[j].name]))
    && (forall j, k ::
          0 <= j < |items| && 0 <= k < |items| && items[j].FileItem? &&
          FileAt(items[k], items[j].dir + [items[j].name]) ==>
          items[j].entry == items[k].entry)
  }

  datatype Mark = Nothing | FileMark(location: Location, writeable: bool) | DirMark(host: Option<HostPath>)

  function MarkAt(n: Node, cs: seq<string>): Mark {
    match At(n, cs)
    case None => Nothing
    case Some(File(l, w)) => FileMark(l, w)
    case Some(Dir(_, h)) => DirMark(h)
  }

  /** At `cs` the tree has the file entry for it, or the directory some entry implies, or nothing. */
  ghost predicate RightAt(items: seq<Item>, n: Node, cs: seq<string>) {
    && (forall k :: 0 <= k < |items| && FileAt(items[k], cs) ==>
       MarkAt(n, cs) == FileMark(InArchive(items[k].entry), false))
    && (!SomeFile(items, cs) ==> MarkAt(n, cs) == if SomeDir(items, cs) then DirMark(None) else Nothing)
  }

  ghost predicate IsTreeOf(items: seq<Item>, n: Node) { forall cs: seq<string> :: RightAt(items, n, cs) }

  // ---------------------------------------------------------------- proofs

  lemma {:induction false} MakeDirsMarks(n: Node, ps: seq<string>, cs: seq<string>)
    requires MakeDirs(n, ps).Some?
    ensures MarkAt(MakeDirs(n, ps).value, cs) == if cs <= ps && MarkAt(n, cs).Nothing? then DirMark(None)
            else MarkAt(n, cs)
    decreases |ps|
  {
    if ps != [] && cs != [] && cs[0] == ps[0] {
      var next := if ps[0] in n.children then n.children[ps[0]] else Dir(map[], None);
      MakeDirsMarks(next, ps[1..], cs[1..]);
      assert cs <= ps <==> cs[1..] <= ps[1..] by {
        assert cs == [cs[0]] + cs[1..] && ps == [ps[0]] + ps[1..];
      }
      if ps[0] !in n.children && cs[1..] != [] { LeafHasNoEntries(next, cs[1..]); }
    }
  }

  /** Directories can be made along `ps` if nothing on the way is a file. */
  lemma {:induction false} MakeDirsSucceeds(n: Node, ps: seq<string>)
    requires ".." !in ps && forall k :: 0 <= k < |ps| ==> !MarkAt(n, ps[..k]).FileMark?
    ensures MakeDirs(n, ps).Some?
    decreases |ps|
  {
    if ps != [] {
      assert ps[..0] == [];
      var next := if ps[0] in n.children then n.children[ps[0]] else Dir(map[], None);
      forall k | 0 <= k < |ps[1..]| ensures !MarkAt(next, ps[1..][..k]).FileMark? {
        assert ps[..k + 1][1..] == ps[1..][..k] && ps[..k + 1][0] == ps[0];
        if ps[0] !in n.children && k > 0 { LeafHasNoEntries(next, ps[1..][..k]); }
      }
      MakeDirsSucceeds(next, ps[1..]);
    }
  }

  lemma AddingSucceeds(items: seq<Item>, n: Node)
    requires items != [] && ConflictFree(items) && IsTreeOf(items[..|items| - 1], n)
    ensures AddItem(n, items[|items| - 1]).Some?
  {
    var last := items[|items| - 1];
    var init := items[..|items| - 1];
    forall k | 0 <= k <= |last.dir| ensures !MarkAt(n, last.dir[..k]).FileMark? {
      assert RightAt(init, n, last.dir[..k]);
      NoFileAlong(items, last.dir[..k]);
    }
    MakeDirsSucceeds(n, last.dir);
    MakeDirsMarks(n, last.dir, last.dir);
    assert last.dir[..|last.dir|] == last.dir;
    assert RightAt(init, n, last.dir);
  }

  lemma NoFileAlong(items: seq<Item>, cs: seq<string>)
    requires items != [] && ConflictFree(items) && DirAlong(items[|items| - 1], cs)
    ensures !SomeFile(items[..|items| - 1], cs)
  {
    var init := items[..|items| - 1];
    forall k | 0 <= k < |init| ensures !FileAt(init[k], cs) {
      assert init[k] == items[k];
    }
  }

  lemma InitAndLast(items: seq<Item>, cs: seq<string>)
    requires items != []
    ensures SomeFile(items, cs) <==> SomeFile(items[..|items| - 1], cs) || FileAt(items[|items| - 1], cs)
    ensures SomeDir(items, cs) <==> SomeDir(items[..|items| - 1], cs) || DirAlong(items[|items| - 1], cs)
  {
    var init, last := items[..|items| - 1], items[|items| - 1];
    if SomeFile(items, cs) && !FileAt(last, cs) {
      var k :| 0 <= k < |items| && FileAt(items[k], cs);
      assert FileAt(init[k], cs);
    }
    if k :| 0 <= k < |init| && FileAt(init[k], cs) { assert FileAt(items[k], cs); }
    if SomeDir(items, cs) && cs != [] && !DirAlong(last, cs) {
      var k :| 0 <= k < |items| && DirAlong(items[k], cs);
      assert DirAlong(init[k], cs);
    }
    if cs != [] && SomeDir(init, cs) {
      var k :| 0 <= k < |init| && DirAlong(init[k], cs);
      assert DirAlong(items[k], cs);
    }
  }

  /** After making the last item's directories, everything but its file is right. */
  lemma DirsRight(items: seq<Item>, n: Node, m: Node, cs: seq<string>)
    requires items != [] && ConflictFree(items) && IsTreeOf(items[..|items| - 1], n)
    requires MakeDirs(n, items[|items| - 1].dir) == Some(m) && !FileAt(items[|items| - 1], cs)
    ensures RightAt(items, m, cs)
  {
    var init, last := items[..|items| - 1], items[|items| - 1];
    MakeDirsMarks(n, last.dir, cs);
    InitAndLast(items, cs);
    assert RightAt(init, n, cs);
    forall k | 0 <= k < |items| && FileAt(items[k], cs)
      ensures MarkAt(m, cs) == FileMark(InArchive(items[k].entry), false)
    {
      assert FileAt(init[k], cs);
    }
  }

  /** Where the last item's file goes there is nothing yet, or the same file. */
  lemma FilePlace(items: seq<Item>, n: Node, m: Node)
    requires items != [] && ConflictFree(items) && IsTreeOf(items[..|items| - 1], n)
    requires items[|items| - 1].FileItem? && MakeDirs(n, items[|items| - 1].dir) == Some(m)
    ensures Leaf(At(m, items[|items| - 1].dir + [items[|items| - 1].name]))
  {
    var init, last := items[..|items| - 1], items[|items| - 1];
    var place := last.dir + [last.name];
    MakeDirsMarks(n, last.dir, place);
    assert RightAt(init, n, place);
    forall k | 0 <= k < |init| ensures !DirAlong(init[k], place) {
      assert init[k] == items[k];
    }
    if SomeFile(init, place) {
      var k :| 0 <= k < |init| && FileAt(init[k], place);
    }
    assert !MarkAt(m, place).DirMark?;
  }

  lemma FileRight(items: seq<Item>, n: Node, m: Node, cs: seq<string>)
    requires items != [] && ConflictFree(items) && IsTreeOf(items[..|items| - 1], n)
    requires items[|items| - 1].FileItem? && MakeDirs(n, items[|items| - 1].dir) == Some(m) &&
             AddItem(n, items[|items| - 1]).Some?
    ensures RightAt(items, AddItem(n, items[|items| - 1]).value, cs)
  {
    var last := items[|items| - 1];
    var file := File(InArchive(last.entry), false);
    FilePlace(items, n, m);
    LookAfterSetEntry(m, last.dir, last.name, Some(file), cs);
    if FileAt(last, cs) {
      assert cs != last.dir;
    } else {
      DirsRight(items, n, m, cs);
    }
  }

  /** Whatever the order, a conflict-free list builds the tree it implies. */
  lemma {:induction false} BuildIsTree(items: seq<Item>)
    requires ConflictFree(items)
    ensures Build(items).Some? && IsTreeOf(items, Build(items).value)
    decreases |items|
  {
    if items == [] {
      var n := Dir(map[], None);
      forall cs: seq<string> ensures RightAt(items, n, cs) {
        if cs != [] { LeafHasNoEntries(n, cs); }
      }
    } else {
      var init, last := items[..|items| - 1], items[|items| - 1];
      BuildIsTree(init);
      var n := Build(init).value;
      AddingSucceeds(items, n);
      var m := MakeDirs(n, last.dir).value;
      forall cs: seq<string> ensures RightAt(items, Build(items).value, cs) {
        if last.DirItem? { DirsRight(items, n, m, cs); } else { FileRight(items, n, m, cs); }
      }
    }
  }

  /** Trees with the same marks everywhere are the same. */
  lemma {:induction false} SameMarksSameTree(a: Node, b: Node)
    requires forall cs: seq<string> :: MarkAt(a, cs) == MarkAt(b, cs)
    ensures a == b
    decreases a
  {
    assert MarkAt(a, []) == MarkAt(b, []);
    if a.Dir? {
      forall c: string ensures c in a.children <==> c in b.children {
        AtAppend(a, [], c);
        AtAppend(b, [], c);
        assert [] + [c] == [c] && MarkAt(a, [c]) == MarkAt(b, [c]);
      }
      forall c | c in a.children ensures a.children[c] == b.children[c] {
        forall cs: seq<string> ensures MarkAt(a.children[c], cs) == MarkAt(b.children[c], cs) {
          assert ([c] + cs)[1..] == cs;
          assert MarkAt(a, [c] + cs) == MarkAt(b, [c] + cs);
        }
        SameMarksSameTree(a.children[c], b.children[c]);
      }
      assert a.children == b.children;
    }
  }

  lemma SameItems(a: seq<Item>, b: seq<Item>, cs: seq<string>)
    requires forall item :: item in a ==> item in b
    ensures SomeFile(a, cs) ==> SomeFile(b, cs)
    ensures SomeDir(a, cs) ==> SomeDir(b, cs)
  {
    if k :| 0 <= k < |a| && FileAt(a[k], cs) {
      assert a[k] in b;
      var j :| 0 <= j < |b| && b[j] == a[k];
      assert FileAt(b[j], cs);
    }
    if cs != [] && SomeDir(a, cs) {
      var k :| 0 <= k < |a| && DirAlong(a[k], cs);
      assert a[k] in b;
      var j :| 0 <= j < |b| && b[j] == a[k];
      assert DirAlong(b[j], cs);
    }
  }

  lemma ReorderedStaysConflictFree(a: seq<Item>, b: seq<Item>)
    requires ConflictFree(a) && forall item :: item in b ==> item in a
    ensures ConflictFree(b)
  {
    forall k | 0 <= k < |b| ensures NoParents(b[k]) {
      assert b[k] in a;
      var i :| 0 <= i < |a| && a[i] == b[k];
    }
    forall j, k | 0 <= j < |b| && 0 <= k < |b| && b[j].FileItem?
      ensures !DirAlong(b[k], b[j].dir + [b[j].name])
      ensures FileAt(b[k], b[j].dir + [b[j].name]) ==> b[j].entry == b[k].entry
    {
      assert b[j] in a && b[k] in a;
      var i :| 0 <= i < |a| && a[i] == b[j];
      var h :| 0 <= h < |a| && a[h] == b[k];
    }
  }

  lemma SameItemsSameTree(a: seq<Item>, b: seq<Item>)
    requires ConflictFree(a) && forall item :: item in a <==> item in b
    ensures Build(a).Some? && Build(a) == Build(b)
  {
    ReorderedStaysConflictFree(a, b);
    BuildIsTree(a);
    BuildIsTree(b);
    var m, n := Build(a).value, Build(b).value;
    forall cs: seq<string> ensures MarkAt(m, cs) == MarkAt(n, cs) {
      assert RightAt(a, m, cs) && RightAt(b, n, cs);
      SameItems(a, b, cs);
      SameItems(b, a, cs);
      if k :| 0 <= k < |a| && FileAt(a[k], cs) {
        assert a[k] in b;
        var j :| 0 <= j < |b| && b[j] == a[k];
        assert FileAt(b[j], cs);
      }
    }
    SameMarksSameTree(m, n);
  }

  /** Every entry can be taken apart, and they do not conflict. */
  ghost predicate Orderly(entries: seq<Entry>) {
    ParseAll(entries).Some? && ConflictFree(ParseAll(entries).value)
  }

  lemma SameEntriesSameItems(a: seq<Entry>, b: seq<Entry>)
    requires ParseAll(a).Some? && ParseAll(b).Some? && forall e :: e in a ==> e in b
    ensures forall item :: item in ParseAll(a).value ==> item in ParseAll(b).value
  {
    var x, y := ParseAll(a).value, ParseAll(b).value;
    forall item | item in x ensures item in y {
      var k :| 0 <= k < |x| && x[k] == item;
      ParseAllAt(a, k);
      assert a[k] in b;
      var j :| 0 <= j < |b| && b[j] == a[k];
      ParseAllAt(b, j);
    }
  }

  /** The tree built from the entries of an orderly archive does not depend on their order, nor on repetitions. */
  lemma OrderDoesNotMatter(a: seq<Entry>, b: seq<Entry>)
    requires Orderly(a) && forall e :: e in a <==> e in b
    ensures BuildEntries(a).Some? && BuildEntries(a) == BuildEntries(b)
  {
    ParseAllIff(a);
    ParseAllIff(b);
    SameEntriesSameItems(a, b);
    SameEntriesSameItems(b, a);
    SameItemsSameTree(ParseAll(a).value, ParseAll(b).value);
  }

  /**
   With a file and a directory of the same name, the order does matter: one order panics, the other
   hides the directory.
   */
  lemma {:induction false} ConflictsMatter(name: string, below: seq<string>, entry: string)
    requires name != ".." && ".." !in below && below != []
    ensures Build([FileItem([], name, entry), DirItem([name] + below)]).None?
    ensures Build([DirItem([name] + below), FileItem([], name, entry)]) ==
            Some(Dir(map[name := File(InArchive(entry), false)], None))
  {
    var f, d := FileItem([], name, entry), DirItem([name] + below);
    var empty := Dir(map[], None);
    var file := File(InArchive(entry), false);
    assert [f][..0] == [] && [f, d][..1] == [f] && [d][..0] == [] && [d, f][..1] == [d];
    assert ([name] + below)[1..] == below;
    assert Build([]) == Some(empty);
    assert Build([f]) == Some(Dir(map[name := file], None));
    assert MakeDirs(file, below).None?;
    forall k | 0 <= k < |below| ensures !MarkAt(empty, below[..k]).FileMark? {
      if k > 0 { LeafHasNoEntries(empty, below[..k]); }
    }
    MakeDirsSucceeds(empty, below);
    var made := MakeDirs(empty, below).value;
    assert Build([d]) == Some(Dir(map[name := made], None));
    assert map[name := made][name := file] == map[name := file];
  }

  // ---------------------------------------------------------------- the builder

  class FsNodeBuilder {
    var root: Node

    constructor ()
      ensures root == Dir(map[], None)
    {
      root := Dir(map[], None);
    }

    /** Walks down from the root, making directories where there are none; false where the source panics. */
    method FindOrMakeDirectory(parts: seq<string>) returns (ok: bool)
      modifies this
      ensures match MakeDirs(old(root), parts)
              case Some(m) => ok && root == m
              case None => !ok
    {
      var current: seq<string> := [];
      assert parts[..0] == [];
      for k := 0 to |parts|
        invariant current == parts[..k] && MakeDirs(old(root), current) == Some(root) && At(root, current).Some?
      {
        var part := parts[k];
        assert parts[..k + 1] == current + [part];
        MakeDirsOneMore(old(root), current, part);
        if part == ".." || !HasDir(root, current) {
          MakeDirsPrefix(old(root), parts, k + 1);
          return false;
        }
        if part !in At(root, current).value.children {
          root := SetEntry(root, current, part, Some(Dir(map[], None)));
        }
        current := current + [part];
      }
      assert parts[..|parts|] == parts;
      return true;
    }

    method Add(item: Item) returns (ok: bool)
      modifies this
      ensures match AddItem(old(root), item)
              case Some(m) => ok && root == m
              case None => !ok
    {
      ok := FindOrMakeDirectory(item.dir);
      if !ok || item.DirItem? { return ok; }
      if item.name == ".." || !HasDir(root, item.dir) { return false; }
      root := SetEntry(root, item.dir, item.name, Some(File(InArchive(item.entry), false)));
      return true;
    }
  }

  /** `into_fs_node` of an archive: takes the entries apart and adds them one by one. */
  method IntoFsNode(entries: seq<Entry>) returns (r: Option<Node>)
    ensures r == BuildEntries(entries)
  {
    var builder := new FsNodeBuilder();
    for k := 0 to |entries|
      invariant ParseAll(entries[..k]).Some? && Build(ParseAll(entries[..k]).value) == Some(builder.root)
    {
      ghost var items := ParseAll(entries[..k]).value;
      assert entries[..k + 1][..k] == entries[..k];
      var item := Parse(entries[k]);
      if item.None? {
        ParseStaysFailed(entries, k + 1, |entries|);
        return None;
      }
      assert (items + [item.value])[..|items|] == items;
      var ok := builder.Add(item.value);
      if !ok {
        BuildStaysFailed(entries, k + 1, |entries|);
        return None;
      }
    }
    assert entries[..|entries|] == entries;
    return Some(builder.root);
  }

  /** Some entry lies at `cs` or below. */
  ghost predicate SomeEntryFrom(entries: seq<Entry>, cs: seq<string>) {
    exists k :: 0 <= k < |entries| && cs <= Place(entries[k])
  }

  lemma PlacesOfItems(entries: seq<Entry>, cs: seq<string>)
    requires ParseAll(entries).Some? && cs != []
    ensures var items := ParseAll(entries).value; SomeEntryFrom(entries, cs) <==>
            SomeFile(items, cs) || SomeDir(items, cs)
  {
    var items := ParseAll(entries).value;
    forall k | 0 <= k < |entries| ensures cs <= Place(entries[k]) <==> FileAt(items[k], cs) || DirAlong(items[k], cs) {
      ParseAllAt(entries, k);
      ParsedPlace(entries[k]);
    }
  }

  /** Building an archive's tree and listing it gives each entry's place, and each directory above one, exactly once. */
  method ListArchive(entries: seq<Entry>) returns (paths: seq<string>, ghost places: seq<seq<string>>)
    requires Orderly(entries)
    ensures Listing.Distinct(places) && |paths| == |places|
    ensures forall cs: seq<string> :: cs in places <==> cs != [] && SomeEntryFrom(entries, cs)
    ensures forall k :: 0 <= k < |paths| ==> paths[k] == Listing.Joined(places[k])
  {
    ghost var items := ParseAll(entries).value;
    BuildIsTree(items);
    var tree := IntoFsNode(entries);
    var n := tree.value;
    assert RightAt(items, n, []);
    RootIsNoFile(items);
    paths, places := Listing.ListBelow(n);
    forall cs: seq<string> ensures cs in places <==> cs != [] && SomeEntryFrom(entries, cs) {
      assert RightAt(items, n, cs);
      if cs != [] { PlacesOfItems(entries, cs); }
      if k :| 0 <= k < |items| && FileAt(items[k], cs) { assert MarkAt(n, cs).FileMark?; }
    }
  }

  lemma RootIsNoFile(items: seq<Item>)
    ensures !SomeFile(items, [])
  {
  }

  lemma {:induction false} ParseStaysFailed(entries: seq<Entry>, j: nat, k: nat)
    requires j <= k <= |entries| && ParseAll(entries[..j]).None?
    ensures ParseAll(entries[..k]).None? && (k == |entries| ==> ParseAll(entries).None?)
    decreases k
  {
    hide Parse;
    if j < k {
      ParseStaysFailed(entries, j, k - 1);
      assert entries[..k][..k - 1] == entries[..k - 1];
    }
    assert entries[..|entries|] == entries;
  }

  lemma {:induction false} ParsedBefore(entries: seq<Entry>, k: nat)
    requires 0 < k <= |entries| && ParseAll(entries[..k]).Some?
    ensures ParseAll(entries[..k - 1]).Some?
    ensures ParseAll(entries[..k]).value[..k - 1] == ParseAll(entries[..k - 1]).value
  {
    hide Parse;
    assert entries[..k][..k - 1] == entries[..k - 1];
  }

  lemma {:induction false} NotBuiltBefore(items: seq<Item>)
    requires items != [] && Build(items[..|items| - 1]).None?
    ensures Build(items).None?
  {
  }

  lemma {:induction false} BuildStaysFailed(entries: seq<Entry>, j: nat, k: nat)
    requires j <= k <= |entries| && ParseAll(entries[..j]).Some? && BuildEntries(entries[..j]).None?
    ensures BuildEntries(entries[..k]).None? && (k == |entries| ==> BuildEntries(entries).None?)
    decreases k
  {
    hide ParseAll, Build;
    if j < k {
      BuildStaysFailed(entries, j, k - 1);
      if ParseAll(entries[..k]).Some? {
        ParsedBefore(entries, k);
        NotBuiltBefore(ParseAll(entries[..k]).value);
      }
    }
    assert entries[..|entries|] == entries;
  }

  lemma {:induction false} MakeDirsOneMore(n: Node, ps: seq<string>, part: string)
    requires MakeDirs(n, ps).Some?
    ensures At(MakeDirs(n, ps).value, ps).Some?
    ensures var m := MakeDirs(n, ps).value;
            MakeDirs(n, ps + [part]) ==
            if part == ".." || !HasDir(m, ps) then None
            else if part in At(m, ps).value.children then Some(m)
            else Some(SetEntry(m, ps, part, Some(Dir(map[], None))))
    ensures MakeDirs(n, ps + [part]).Some? ==> At(MakeDirs(n, ps + [part]).value, ps + [part]).Some?
    decreases |ps|
  {
    MakeDirsMarks(n, ps, ps);
    if ps == [] {
      assert [part][1..] == [];
      var m := MakeDirs(n, [part]);
      if m.Some? && part in n.children { assert n.children[part := n.children[part]] == n.children; }
      assert [] + [part] == [part];
    } else {
      var next := if ps[0] in n.children then n.children[ps[0]] else Dir(map[], None);
      assert (ps + [part])[1..] == ps[1..] + [part];
      MakeDirsOneMore(next, ps[1..], part);
      var m, inner := MakeDirs(n, ps).value, MakeDirs(next, ps[1..]).value;
      assert m.children[ps[0]] == inner && HasDir(m, ps) == HasDir(inner, ps[1..]);
      if part != ".." && HasDir(m, ps) {
        var entry := Some(Dir(map[], None));
        assert n.children[ps[0] := inner][ps[0] := SetEntry(inner, ps[1..], part, entry)]
            == n.children[ps[0] := SetEntry(inner, ps[1..], part, entry)];
      }
    }
    if MakeDirs(n, ps + [part]).Some? { MakeDirsMarks(n, ps + [part], ps + [part]); }
  }

  lemma {:induction false} MakeDirsPrefix(n: Node, ps: seq<string>, k: nat)
    requires k <= |ps| && MakeDirs(n, ps[..k]).None?
    ensures MakeDirs(n, ps).None?
    decreases k
  {
    if k > 0 && ps[0] != ".." && n.Dir? {
      var next := if ps[0] in n.children then n.children[ps[0]] else Dir(map[], None);
      assert ps[..k][1..] == ps[1..][..k - 1];
      MakeDirsPrefix(next, ps[1..], k - 1);
    }
  }
}
