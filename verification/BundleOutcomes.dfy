/** When an archive's tree can be built at all (src/fs.rs:181-187, src/fs/bundle.rs:30-68, 157-178). */
module BundleOutcomes {
  import opened Prelude
  import opened Paths
  import opened FileSystem
  import opened Bundles

  // ---------------------------------------------------------------- taking paths apart

  lemma {:induction false} SplitOnce(s: string)
    ensures |Split(s)| >= 2 <==> '/' in s
    decreases |s|
  {
    if s != "" {
      SplitOnce(s[1..]);
      assert s == [s[0]] + s[1..];
    }
  }

  /** A directory's path can always be taken apart; a file's if there is a slash in it, and not at its end. */
  lemma ParsesIff(e: Entry)
    ensures Parse(e).Some? <==> e.DirEntry? || ('/' in e.path && e.path[|e.path| - 1] != '/')
  {
    SplitOnce(e.path);
  }

  // ---------------------------------------------------------------- files on the way

  /** Where an item's file or directory is to be. */
  function PlaceOf(item: Item): seq<string> { if item.FileItem? then item.dir + [item.name] else item.dir }

  predicate FileMarkAt(n: Node, cs: seq<string>, i: nat) { i <= |cs| && MarkAt(n, cs[..i]).FileMark? }

  /** There is a file at `cs`, or on the way there. */
  ghost predicate FileOn(n: Node, cs: seq<string>) { exists i: nat :: FileMarkAt(n, cs, i) }

  predicate ListsFile(items: seq<Item>, cs: seq<string>, j: nat) {
    j < |items| && items[j].FileItem? && PlaceOf(items[j]) <= cs
  }

  /** The items have a file at `cs`, or on the way there. */
  ghost predicate Listed(items: seq<Item>, cs: seq<string>) { exists j: nat :: ListsFile(items, cs, j) }

  lemma {:induction false} MakeDirsIff(n: Node, ps: seq<string>)
    ensures MakeDirs(n, ps).Some? <==>
            ".." !in ps && forall k :: 0 <= k < |ps| ==> !MarkAt(n, ps[..k]).FileMark?
    decreases |ps|
  {
    if MakeDirs(n, ps).Some? && ps != [] {
      var next := if ps[0] in n.children then n.children[ps[0]] else Dir(map[], None);
      MakeDirsIff(next, ps[1..]);
      forall k | 0 <= k < |ps| ensures !MarkAt(n, ps[..k]).FileMark? {
        if k > 0 {
          assert ps[..k][1..] == ps[1..][..k - 1] && ps[..k][0] == ps[0];
          assert !MarkAt(next, ps[1..][..k - 1]).FileMark?;
        }
      }
    } else if ".." !in ps && forall k :: 0 <= k < |ps| ==> !MarkAt(n, ps[..k]).FileMark? {
      MakeDirsSucceeds(n, ps);
    }
  }

  lemma {:induction false} SetMarks(n: Node, ps: seq<string>, name: string, file: Node, cs: seq<string>)
    requires HasDir(n, ps) && file.File?
    ensures MarkAt(SetEntry(n, ps, name, Some(file)), cs) ==
            if ps + [name] <= cs then (if cs == ps + [name] then FileMark(file.location, file.writeable) else Nothing)
            else MarkAt(n, cs)
    decreases |ps|
  {
    var m := SetEntry(n, ps, name, Some(file));
    var place := ps + [name];
    if ps == [] {
      assert place == [name];
      if cs != [] && cs[0] == name {
        assert cs == [name] + cs[1..];
        assert m.children[name] == file;
        if cs[1..] != [] { LeafHasNoEntries(file, cs[1..]); } else { assert At(m, cs) == At(file, []); }
      }
    } else {
      assert place[1..] == ps[1..] + [name] && place == [ps[0]] + place[1..];
      if cs != [] && cs[0] == ps[0] {
        SetMarks(n.children[ps[0]], ps[1..], name, file, cs[1..]);
        assert cs == [cs[0]] + cs[1..];
      }
    }
  }

  /** Making directories adds no file, and takes none away. */
  lemma {:induction false} MakingDirsKeepsFiles(n: Node, ps: seq<string>, cs: seq<string>)
    requires MakeDirs(n, ps).Some?
    ensures FileOn(MakeDirs(n, ps).value, cs) <==> FileOn(n, cs)
  {
    var m := MakeDirs(n, ps).value;
    forall i: nat ensures FileMarkAt(m, cs, i) <==> FileMarkAt(n, cs, i) {
      if i <= |cs| { MakeDirsMarks(n, ps, cs[..i]); }
    }
  }

  /** A file put into the tree is on the way to what lies at or below it. */
  lemma {:induction false} SettingAddsFile(n: Node, ps: seq<string>, name: string, file: Node, cs: seq<string>)
    requires HasDir(n, ps) && file.File?
    ensures FileOn(SetEntry(n, ps, name, Some(file)), cs) <==> FileOn(n, cs) || ps + [name] <= cs
  {
    var m, place := SetEntry(n, ps, name, Some(file)), ps + [name];
    if place <= cs {
      SetMarks(n, ps, name, file, cs[..|place|]);
      assert FileMarkAt(m, cs, |place|);
    } else {
      forall i: nat ensures FileMarkAt(m, cs, i) <==> FileMarkAt(n, cs, i) {
        if i <= |cs| {
          SetMarks(n, ps, name, file, cs[..i]);
          assert place <= cs[..i] ==> place <= cs;
        }
      }
    }
  }

  lemma ListedOnce(items: seq<Item>, cs: seq<string>)
    requires items != []
    ensures Listed(items, cs) <==> Listed(items[..|items| - 1], cs) || ListsFile(items, cs, |items| - 1)
  {
    var init := items[..|items| - 1];
    if j: nat :| ListsFile(items, cs, j) { assert j < |init| ==> ListsFile(init, cs, j); }
    if j: nat :| ListsFile(init, cs, j) { assert ListsFile(items, cs, j); }
  }

  // ---------------------------------------------------------------- success

  /** `place` has no upward step, and none of the items puts a file above it. */
  ghost predicate Reachable(items: seq<Item>, place: seq<string>) {
    ".." !in place && (place != [] ==> !Listed(items, Parent(place)))
  }

  /** Every item is reachable after those before it. */
  ghost predicate AllReachable(items: seq<Item>) {
    forall k :: 0 <= k < |items| ==> Reachable(items[..k], PlaceOf(items[k]))
  }

  lemma {:induction false} AddsIff(n: Node, item: Item)
    ensures AddItem(n, item).Some? <==>
            ".." !in PlaceOf(item) && (PlaceOf(item) != [] ==> !FileOn(n, Parent(PlaceOf(item))))
    ensures AddItem(n, item).Some? ==> forall cs: seq<string> ::
                FileOn(AddItem(n, item).value, cs) <==> FileOn(n, cs) || (item.FileItem? && PlaceOf(item) <= cs)
  {
    hide SetEntry, MarkAt;
    MakeDirsIff(n, item.dir);
    if PlaceOf(item) != [] { FilesAbove(n, item); }
    if MakeDirs(n, item.dir).Some? {
      var m := MakeDirs(n, item.dir).value;
      MadeDirIs(n, item.dir);
      forall cs: seq<string> ensures FileOn(m, cs) <==> FileOn(n, cs) { MakingDirsKeepsFiles(n, item.dir, cs); }
      if AddItem(n, item).Some? && item.FileItem? {
        forall cs: seq<string>
          ensures FileOn(AddItem(n, item).value, cs) <==> FileOn(n, cs) || PlaceOf(item) <= cs
        {
          SettingAddsFile(m, item.dir, item.name, File(InArchive(item.entry), false), cs);
        }
      }
    }
  }

  lemma MadeDirIs(n: Node, ps: seq<string>)
    requires MakeDirs(n, ps).Some?
    ensures HasDir(MakeDirs(n, ps).value, ps) <==> !MarkAt(n, ps).FileMark?
  {
    MakeDirsMarks(n, ps, ps);
  }

  /** A file on the way to the item's parent directory is one its directories meet, or where its file is to go. */
  lemma {:induction false} FilesAbove(n: Node, item: Item)
    requires PlaceOf(item) != []
    ensures !FileOn(n, Parent(PlaceOf(item))) <==>
            && (forall k :: 0 <= k < |item.dir| ==> !MarkAt(n, item.dir[..k]).FileMark?)
            && (item.FileItem? ==> !MarkAt(n, item.dir).FileMark?)
  {
    hide MarkAt;
    var p := Parent(PlaceOf(item));
    assert item.FileItem? ==> p == item.dir && p[..|p|] == p;
    forall k: nat | k <= |p| ensures p[..k] == item.dir[..k] {}
    if !FileOn(n, p) {
      forall k | 0 <= k < |item.dir| ensures !MarkAt(n, item.dir[..k]).FileMark? { assert !FileMarkAt(n, p, k); }
      if item.FileItem? { assert !FileMarkAt(n, p, |p|); }
    }
  }

  lemma ReachableOnce(items: seq<Item>)
    requires items != []
    ensures AllReachable(items) <==>
            AllReachable(items[..|items| - 1]) && Reachable(items[..|items| - 1], PlaceOf(items[|items| - 1]))
  {
    hide Reachable, PlaceOf;
    var init := items[..|items| - 1];
    forall k | 0 <= k < |init| ensures items[..k] == init[..k] && items[k] == init[k] {}
  }

  lemma NothingListed(cs: seq<string>)
    ensures !Listed([], cs) && !FileOn(Dir(map[], None), cs)
  {
    forall i: nat ensures !FileMarkAt(Dir(map[], None), cs, i) {
      if 0 < i <= |cs| { LeafHasNoEntries(Dir(map[], None), cs[..i]); }
    }
  }

  lemma {:induction false} BuildsIff(items: seq<Item>)
    ensures Build(items).Some? <==> AllReachable(items)
    ensures Build(items).Some? ==> forall cs: seq<string> :: FileOn(Build(items).value, cs) <==> Listed(items, cs)
    decreases |items|
  {
    hide AddItem, FileOn, Listed, PlaceOf, AllReachable;
    if items == [] {
      forall cs: seq<string> ensures !Listed([], cs) && !FileOn(Dir(map[], None), cs) { NothingListed(cs); }
      assert AllReachable(items) by { NothingToReach(); }
    } else {
      var init, last := items[..|items| - 1], items[|items| - 1];
      BuildsIff(init);
      ReachableOnce(items);
      if Build(init).Some? {
        AddsIff(Build(init).value, last);
        forall cs: seq<string>
          ensures Listed(items, cs) <==> Listed(init, cs) || (last.FileItem? && PlaceOf(last) <= cs)
        {
          ListedOnce(items, cs);
        }
      }
    }
  }

  lemma NothingToReach()
    ensures AllReachable([])
  {
  }

  // ---------------------------------------------------------------- entries

  /** Entry `j` puts a file above entry `k`'s place. */
  predicate FileAbove(entries: seq<Entry>, j: nat, k: nat) {
    j < |entries| && k < |entries| && entries[j].FileEntry? && Place(entries[j]) < Place(entries[k])
  }

  /** Entry `k` can be taken apart, leads nowhere upwards, and no entry before it puts a file above it. */
  ghost predicate Clear(entries: seq<Entry>, k: nat) {
    && k < |entries| && Parse(entries[k]).Some? && ".." !in Place(entries[k])
    && forall j: nat :: j < k ==> !FileAbove(entries, j, k)
  }

  /**
   Building an archive's tree succeeds exactly if every path can be taken apart and leads nowhere upwards, and
   no entry comes after a file that lies above it.
   */
  lemma {:induction false} BuildSucceedsIff(entries: seq<Entry>)
    ensures BuildEntries(entries).Some? <==> forall k: nat :: k < |entries| ==> Clear(entries, k)
  {
    hide Parse, Place, Build, FileAbove, AllReachable;
    ParseAllIff(entries);
    if ParseAll(entries).Some? {
      var items := ParseAll(entries).value;
      BuildsIff(items);
      AllReachableIs(items);
      forall k: nat | k < |items| ensures Reachable(items[..k], PlaceOf(items[k])) <==> Clear(entries, k) {
        assert entries[k] in entries;
        ReachableMeans(entries, k);
      }
    } else {
      var e :| e in entries && Parse(e).None?;
      var k :| 0 <= k < |entries| && entries[k] == e;
      assert !Clear(entries, k);
    }
  }

  lemma AllReachableIs(items: seq<Item>)
    ensures AllReachable(items) <==> forall k :: 0 <= k < |items| ==> Reachable(items[..k], PlaceOf(items[k]))
  {
  }

  lemma {:induction false} PlacesAgree(entries: seq<Entry>, k: nat)
    requires ParseAll(entries).Some? && k < |entries|
    ensures var item := ParseAll(entries).value[k];
            PlaceOf(item) == Place(entries[k]) && (item.FileItem? <==> entries[k].FileEntry?)
  {
    ParseAllAt(entries, k);
    ParsedPlace(entries[k]);
  }

  lemma {:induction false} ReachableMeans(entries: seq<Entry>, k: nat)
    requires ParseAll(entries).Some? && k < |entries|
    ensures var items := ParseAll(entries).value;
            Reachable(items[..k], PlaceOf(items[k])) <==>
            ".." !in Place(entries[k]) && forall j: nat :: j < k ==> !FileAbove(entries, j, k)
  {
    hide ParseAll, Place;
    var items, place := ParseAll(entries).value, Place(entries[k]);
    PlacesAgree(entries, k);
    forall j: nat | j < k
      ensures place != [] ==> (ListsFile(items[..k], Parent(place), j) <==> FileAbove(entries, j, k))
      ensures place == [] ==> !FileAbove(entries, j, k)
    {
      PlacesAgree(entries, j);
      if place != [] { ProperPrefix(Place(entries[j]), place); }
    }
  }

  lemma ProperPrefix(a: seq<string>, b: seq<string>)
    requires b != []
    ensures a < b <==> a <= Parent(b)
  {
  }

  // ---------------------------------------------------------------- which tree is built

  /** Of the items with a file at `cs` or above it, `j` is the last. */
  predicate LastFile(items: seq<Item>, cs: seq<string>, j: nat) {
    ListsFile(items, cs, j) && forall k: nat :: j < k < |items| ==> !ListsFile(items, cs, k)
  }

  /** The last file at or above `cs` decides; without one there is a directory if an item wants it. */
  ghost predicate Decided(items: seq<Item>, n: Node, cs: seq<string>) {
    && (forall j: nat :: LastFile(items, cs, j) ==>
          MarkAt(n, cs) == if PlaceOf(items[j]) == cs then FileMark(InArchive(items[j].entry), false) else Nothing)
    && (!Listed(items, cs) ==> MarkAt(n, cs) == if SomeDir(items, cs) then DirMark(None) else Nothing)
  }

  lemma {:induction false} LastOf(items: seq<Item>, cs: seq<string>)
    ensures Listed(items, cs) ==> exists j: nat :: LastFile(items, cs, j)
    decreases |items|
  {
    if Listed(items, cs) {
      var init := items[..|items| - 1];
      ListedOnce(items, cs);
      if ListsFile(items, cs, |items| - 1) {
        assert LastFile(items, cs, |items| - 1);
      } else {
        LastOf(init, cs);
        var j: nat :| LastFile(init, cs, j);
        LastStays(items, cs, j);
      }
    }
  }

  lemma LastStays(items: seq<Item>, cs: seq<string>, j: nat)
    requires items != [] && !ListsFile(items, cs, |items| - 1)
    ensures LastFile(items, cs, j) <==> LastFile(items[..|items| - 1], cs, j)
  {
    var init := items[..|items| - 1];
    forall k: nat | k < |init| ensures ListsFile(items, cs, k) <==> ListsFile(init, cs, k) {}
  }

  /** What adding an item does to the mark at `cs`. */
  lemma {:induction false} AddedMark(n: Node, item: Item, cs: seq<string>)
    requires AddItem(n, item).Some?
    ensures MarkAt(AddItem(n, item).value, cs) ==
            if item.FileItem? && PlaceOf(item) <= cs then
              (if PlaceOf(item) == cs then FileMark(InArchive(item.entry), false) else Nothing)
            else if cs <= item.dir && MarkAt(n, cs).Nothing? then DirMark(None)
            else MarkAt(n, cs)
  {
    hide MarkAt, SetEntry;
    MakeDirsMarks(n, item.dir, cs);
    if item.FileItem? {
      SetMarks(MakeDirs(n, item.dir).value, item.dir, item.name, File(InArchive(item.entry), false), cs);
    }
  }

  /** A reachable item makes no directory where a file above has taken the place. */
  lemma NothingUnderFiles(items: seq<Item>, last: Item, cs: seq<string>)
    requires Reachable(items, PlaceOf(last)) && cs <= last.dir && Listed(items, cs)
    ensures exists j: nat :: ListsFile(items, cs, j)
    ensures forall j: nat :: ListsFile(items, cs, j) ==> PlaceOf(items[j]) == cs
  {
    forall j: nat | ListsFile(items, cs, j) ensures PlaceOf(items[j]) == cs {
      if PlaceOf(items[j]) != cs {
        var place := PlaceOf(last);
        assert |cs| > 0 && PlaceOf(items[j]) < cs <= place;
        assert PlaceOf(items[j]) <= Parent(place);
        assert ListsFile(items, Parent(place), j);
      }
    }
  }

  lemma {:induction false} NextDecided(items: seq<Item>, n: Node, cs: seq<string>)
    requires items != [] && Decided(items[..|items| - 1], n, cs) && AddItem(n, items[|items| - 1]).Some?
    requires Reachable(items[..|items| - 1], PlaceOf(items[|items| - 1]))
    ensures Decided(items, AddItem(n, items[|items| - 1]).value, cs)
  {
    hide AddItem, Reachable, SomeDir, MarkAt, PlaceOf;
    var init, last := items[..|items| - 1], items[|items| - 1];
    AddedMark(n, last, cs);
    ListedOnce(items, cs);
    InitAndLast(items, cs);
    if !ListsFile(items, cs, |items| - 1) {
      forall j: nat ensures LastFile(items, cs, j) <==> LastFile(init, cs, j) { LastStays(items, cs, j); }
      if cs <= last.dir && Listed(init, cs) {
        NothingUnderFiles(init, last, cs);
        LastOf(init, cs);
        assert MarkAt(n, cs).FileMark?;
      }
    }
  }

  lemma {:induction false} BuiltIsDecided(items: seq<Item>, cs: seq<string>)
    requires Build(items).Some?
    ensures Decided(items, Build(items).value, cs)
    decreases |items|
  {
    hide AddItem, Decided, Reachable, AllReachable;
    if items == [] {
      NothingDecided(cs);
    } else {
      BuiltIsDecided(items[..|items| - 1], cs);
      BuildsIff(items);
      ReachableOnce(items);
      NextDecided(items, Build(items[..|items| - 1]).value, cs);
    }
  }

  lemma NothingDecided(cs: seq<string>)
    ensures Decided([], Dir(map[], None), cs)
  {
    if cs != [] { LeafHasNoEntries(Dir(map[], None), cs); }
  }

  /** Entry `j` puts a file at `cs` or above it. */
  predicate FileAtOrAbove(entries: seq<Entry>, cs: seq<string>, j: nat) {
    j < |entries| && entries[j].FileEntry? && Place(entries[j]) <= cs
  }

  predicate LastFileEntry(entries: seq<Entry>, cs: seq<string>, j: nat) {
    FileAtOrAbove(entries, cs, j) && forall k: nat :: j < k < |entries| ==> !FileAtOrAbove(entries, cs, k)
  }

  lemma LastMeans(items: seq<Item>, entries: seq<Entry>, cs: seq<string>, j: nat)
    requires |items| == |entries|
    requires forall k: nat :: k < |items| ==> (ListsFile(items, cs, k) <==> FileAtOrAbove(entries, cs, k))
    ensures LastFile(items, cs, j) <==> LastFileEntry(entries, cs, j)
  {
  }

  /** Entry `k` needs `cs` to be a directory: it is one, or leads through it. */
  predicate Through(entries: seq<Entry>, cs: seq<string>, k: nat) {
    k < |entries| && cs <= Place(entries[k]) && (entries[k].FileEntry? ==> cs != Place(entries[k]))
  }

  lemma {:induction false} EntryMeans(entries: seq<Entry>, cs: seq<string>, k: nat)
    requires ParseAll(entries).Some? && k < |entries|
    ensures var items := ParseAll(entries).value;
            && PlaceOf(items[k]) == Place(entries[k])
            && (items[k].FileItem? <==> entries[k].FileEntry?)
            && (items[k].FileItem? ==> items[k].entry == entries[k].entry)
            && (ListsFile(items, cs, k) <==> FileAtOrAbove(entries, cs, k))
            && (DirAlong(items[k], cs) <==> Through(entries, cs, k))
  {
    hide ParseAll, Place;
    PlacesAgree(entries, k);
    ParseAllAt(entries, k);
    var item := ParseAll(entries).value[k];
    if item.FileItem? && cs <= PlaceOf(item) && cs != PlaceOf(item) { ProperPrefix(cs, PlaceOf(item)); }
  }

  /**
   The tree of an archive, whatever the order of its entries and whether or not they conflict: the last file
   at a place or above it decides what is there, and without one there is a directory if an entry needs it.
   */
  lemma {:induction false} BuiltTreeIs(entries: seq<Entry>, cs: seq<string>)
    requires BuildEntries(entries).Some?
    ensures var mark := MarkAt(BuildEntries(entries).value, cs);
            && (forall j: nat :: LastFileEntry(entries, cs, j) ==>
                  mark == if Place(entries[j]) == cs then FileMark(InArchive(entries[j].entry), false) else Nothing)
            && ((forall j: nat :: !LastFileEntry(entries, cs, j)) ==>
                  mark == if cs == [] || exists k: nat :: Through(entries, cs, k) then DirMark(None) else Nothing)
  {
    hide Build, Place, PlaceOf;
    var items := ParseAll(entries).value;
    BuiltIsDecided(items, cs);
    forall k: nat | k < |items|
      ensures ListsFile(items, cs, k) <==> FileAtOrAbove(entries, cs, k)
      ensures PlaceOf(items[k]) == Place(entries[k])
      ensures items[k].FileItem? ==> entries[k].FileEntry? && items[k].entry == entries[k].entry
      ensures DirAlong(items[k], cs) <==> Through(entries, cs, k)
    {
      EntryMeans(entries, cs, k);
    }
    forall j: nat ensures LastFile(items, cs, j) <==> LastFileEntry(entries, cs, j) {
      LastMeans(items, entries, cs, j);
    }
    LastOf(items, cs);
  }
}
