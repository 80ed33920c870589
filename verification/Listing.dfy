/** Listing everything below a directory with two stacks (src/fs.rs:831-886). */
module Listing {
  import opened Prelude
  import opened FileSystem

  // ---------------------------------------------------------------- everything below a directory

  /** The places of everything below `n`. */
  ghost function Places(n: Node): set<seq<string>>
    decreases n
  {
    if n.File? then {}
    else
      (set c | c in n.children :: [c]) + (set c, p | c in n.children && p in Places(n.children[c]) :: [c] + p)
  }

  lemma PlacesOfDir(n: Node, cs: seq<string>)
    requires n.Dir?
    ensures cs in Places(n) <==>
            cs != [] && cs[0] in n.children && (cs[1..] == [] || cs[1..] in Places(n.children[cs[0]]))
  {
    if cs != [] && cs[0] in n.children && (cs[1..] == [] || cs[1..] in Places(n.children[cs[0]])) {
      assert cs == [cs[0]] + cs[1..];
      assert cs[1..] == [] ==> cs == [cs[0]];
    }
    if cs in (set c | c in n.children :: [c]) {
      var c :| c in n.children && cs == [c];
      assert cs[0] == c && cs[1..] == [];
    } else if cs in Places(n) {
      var c, p :| c in n.children && p in Places(n.children[c]) && cs == [c] + p;
      assert cs[0] == c && cs[1..] == p;
    }
  }

  lemma {:induction false} PlacesAre(n: Node, cs: seq<string>)
    ensures cs in Places(n) <==> cs != [] && At(n, cs).Some?
    decreases |cs|
  {
    if n.Dir? {
      PlacesOfDir(n, cs);
      if cs != [] && cs[0] in n.children {
        PlacesAre(n.children[cs[0]], cs[1..]);
        assert At(n, cs) == At(n.children[cs[0]], cs[1..]);
        assert cs[1..] == [] ==> At(n.children[cs[0]], []).Some?;
      }
    } else if cs != [] {
      assert Child(n, cs[0]).None?;
    }
  }

  // ---------------------------------------------------------------- listing with two stacks

  predicate Distinct<T(==)>(s: seq<T>) {
    forall j, k :: 0 <= j < k < |s| ==> s[j] != s[k]
  }

  /** Before level `k` an iterator still has to produce `cs[k]`, on the way to `cs`. */
  predicate PendingAt(components: seq<string>, iterators: seq<seq<string>>, cs: seq<string>, k: nat) {
    k < |iterators| && k <= |components| && k < |cs| && cs[..k] == components[..k] && cs[k] in iterators[k]
  }

  /** The stacks still lead to `cs`. */
  ghost predicate Pending(components: seq<string>, iterators: seq<seq<string>>, cs: seq<string>) {
    exists k: nat :: PendingAt(components, iterators, cs, k)
  }

  /** The iterators go over distinct remaining names of the directories along `components`, which are behind them. */
  ghost predicate StacksOk(n: Node, components: seq<string>, iterators: seq<seq<string>>) {
    && |iterators| == |components| + 1
    && (forall k :: 0 <= k <= |components| ==> LevelOk(n, components, iterators, k))
  }

  ghost predicate LevelOk(n: Node, components: seq<string>, iterators: seq<seq<string>>, k: nat)
    requires k <= |components| < |iterators|
  {
    && HasDir(n, components[..k])
    && Distinct(iterators[k])
    && (forall c :: c in iterators[k] ==> c in At(n, components[..k]).value.children)
    && (k < |components| ==> components[k] !in iterators[k])
  }

  /** What has been listed and what the stacks still lead to is, without overlap, everything below `n`. */
  ghost predicate Covers(n: Node, listed: seq<seq<string>>, components: seq<string>, iterators: seq<seq<string>>) {
    && Distinct(listed)
    && forall cs: seq<string> :: (cs in listed <==> cs != [] && At(n, cs).Some? && !Pending(components, iterators, cs))
  }

  lemma NamesBelow(n: Node, cs: seq<string>, k: nat)
    requires At(n, cs).Some? && k < |cs|
    ensures HasDir(n, cs[..k]) && cs[k] in At(n, cs[..k]).value.children
    decreases |cs| - k
  {
    if k + 1 == |cs| {
      AtParent(n, cs);
      assert cs[..k] == Parent(cs);
    } else {
      NamesBelow(n, cs, k + 1);
      AtParent(n, cs[..k + 1]);
      assert cs[..k + 1][..k] == cs[..k];
    }
  }

  lemma {:induction false} AtSplit(n: Node, a: seq<string>, b: seq<string>)
    ensures At(n, a + b) == match At(n, a) case None => None case Some(m) => At(m, b)
    decreases |a|
  {
    if a == [] {
      assert a + b == b;
    } else {
      assert (a + b)[1..] == a[1..] + b;
      if Child(n, a[0]).Some? { AtSplit(Child(n, a[0]).value, a[1..], b); }
    }
  }

  /** Advancing the top iterator past `c` gives up exactly what lies at or below `c`. */
  lemma PendingAfterNext(n: Node, components: seq<string>, iterators: seq<seq<string>>, cs: seq<string>)
    requires StacksOk(n, components, iterators) && iterators[|components|] != []
    ensures var top := iterators[|components|];
            var after := iterators[|components| := top[1..]];
            && (Pending(components, iterators, cs) <==> Pending(components, after, cs) || components + [top[0]] <= cs)
            && (components + [top[0]] <= cs ==> !Pending(components, after, cs))
  {
    var d := |components|;
    var top := iterators[d];
    var after := iterators[d := top[1..]];
    assert LevelOk(n, components, iterators, d);
    assert top == [top[0]] + top[1..];
    var place := components + [top[0]];
    forall k: nat | PendingAt(components, after, cs, k) ensures PendingAt(components, iterators, cs, k) {
      assert k < d ==> after[k] == iterators[k];
    }
    forall k: nat | PendingAt(components, iterators, cs, k)
      ensures PendingAt(components, after, cs, k) || components + [top[0]] <= cs
    {
      if k == d && cs[k] == top[0] { assert cs[..d + 1] == cs[..d] + [cs[d]]; }
    }
    if components + [top[0]] <= cs {
      assert cs[..d] == (components + [top[0]])[..d] == components && cs[d] == (components + [top[0]])[d];
      assert PendingAt(components, iterators, cs, d);
      forall k: nat ensures !PendingAt(components, after, cs, k) {
        if k <= d {
          assert LevelOk(n, components, iterators, k);
          assert cs[k] == place[k];
          TopIsNew(top);
        }
      }
    }
  }

  lemma TopIsNew(top: seq<string>)
    requires Distinct(top) && top != []
    ensures top[0] !in top[1..]
  {
    forall j | 0 <= j < |top[1..]| ensures top[1..][j] != top[0] { assert top[1..][j] == top[j + 1]; }
  }

  lemma AdvanceKeepsStacks(n: Node, components: seq<string>, iterators: seq<seq<string>>)
    requires StacksOk(n, components, iterators) && iterators[|components|] != []
    ensures StacksOk(n, components, iterators[|components| := iterators[|components|][1..]])
    ensures iterators[|components|][0] !in iterators[|components|][1..]
    ensures At(n, components + [iterators[|components|][0]]).Some?
  {
    var d := |components|;
    var top := iterators[d];
    var after := iterators[d := top[1..]];
    forall k | 0 <= k <= d ensures LevelOk(n, components, after, k) { assert LevelOk(n, components, iterators, k); }
    assert LevelOk(n, components, iterators, d);
    TopIsNew(top);
    assert components[..d] == components;
    AtAppend(n, components, top[0]);
  }

  lemma ListedNew(n: Node, listed: seq<seq<string>>, components: seq<string>, iterators: seq<seq<string>>)
    requires Covers(n, listed, components, iterators) && StacksOk(n, components, iterators) &&
             iterators[|components|] != []
    ensures Distinct(listed + [components + [iterators[|components|][0]]])
  {
    var place := components + [iterators[|components|][0]];
    PendingAfterNext(n, components, iterators, place);
    assert place !in listed;
  }

  /** A file is listed and left behind. */
  lemma ListFile(n: Node, listed: seq<seq<string>>, components: seq<string>, iterators: seq<seq<string>>)
    requires Covers(n, listed, components, iterators) && StacksOk(n, components, iterators) &&
             iterators[|components|] != []
    requires var place := components + [iterators[|components|][0]]; At(n, place).Some? && At(n, place).value.File?
    ensures Covers(n, listed + [components + [iterators[|components|][0]]], components,
            iterators[|components| := iterators[|components|][1..]])
  {
    var place := components + [iterators[|components|][0]];
    var after := iterators[|components| := iterators[|components|][1..]];
    ListedNew(n, listed, components, iterators);
    forall cs: seq<string> ensures cs in listed + [place] <==>
      cs != [] && At(n, cs).Some? && !Pending(components, after, cs)
    {
      PendingAfterNext(n, components, iterators, cs);
      if place <= cs && cs != place {
        assert cs == place + cs[|place|..];
        AtSplit(n, place, cs[|place|..]);
        LeafHasNoEntries(At(n, place).value, cs[|place|..]);
      }
    }
  }

  /** A directory is listed and entered. */
  lemma ListDirectory(n: Node, listed: seq<seq<string>>, components: seq<string>, iterators: seq<seq<string>>,
          names: seq<string>)
    requires Covers(n, listed, components, iterators) && StacksOk(n, components, iterators) &&
             iterators[|components|] != []
    requires var place := components + [iterators[|components|][0]];
             HasDir(n, place) && Distinct(names) && forall c :: c in names <==> c in At(n, place).value.children
    ensures var place := components + [iterators[|components|][0]];
            var deeper := iterators[|components| := iterators[|components|][1..]] + [names];
            StacksOk(n, place, deeper) && Covers(n, listed + [place], place, deeper)
  {
    var d := |components|;
    var place := components + [iterators[d][0]];
    var after := iterators[d := iterators[d][1..]];
    var deeper := after + [names];
    AdvanceKeepsStacks(n, components, iterators);
    ListedNew(n, listed, components, iterators);
    forall k | 0 <= k <= |place| ensures LevelOk(n, place, deeper, k) {
      if k <= d {
        assert LevelOk(n, components, after, k) && place[..k] == components[..k];
      } else {
        assert place[..k] == place;
      }
    }
    forall cs: seq<string> ensures cs in listed + [place] <==>
      cs != [] && At(n, cs).Some? && !Pending(place, deeper, cs)
    {
      PendingAfterNext(n, components, iterators, cs);
      if At(n, cs).Some? { PendingDeeper(n, components, after, place, names, cs); }
    }
  }

  lemma PendingDeeper(n: Node, components: seq<string>, after: seq<seq<string>>, place: seq<string>, names: seq<string>,
          cs: seq<string>)
    requires |after| == |components| + 1 && |place| == |components| + 1 && place[..|components|] == components
    requires HasDir(n, place) && forall c :: c in names <==> c in At(n, place).value.children
    requires At(n, cs).Some?
    ensures Pending(place, after + [names], cs) <==> Pending(components, after, cs) || (place <= cs && place != cs)
  {
    var deeper := after + [names];
    var d := |components|;
    forall k: nat ensures k <= d ==> (PendingAt(place, deeper, cs, k) <==> PendingAt(components, after, cs, k)) {
      if k <= d { assert place[..k] == components[..k]; }
    }
    if place <= cs && place != cs {
      NamesBelow(n, cs, d + 1);
      assert cs[..d + 1] == place && place[..d + 1] == place;
      assert PendingAt(place, deeper, cs, d + 1);
    }
    if Pending(place, deeper, cs) && !Pending(components, after, cs) {
      var k: nat :| PendingAt(place, deeper, cs, k);
      assert k == d + 1 && place[..k] == place;
    }
  }

  /** An exhausted directory is left. */
  lemma LeaveDirectory(n: Node, listed: seq<seq<string>>, components: seq<string>, iterators: seq<seq<string>>)
    requires Covers(n, listed, components, iterators) && StacksOk(n, components, iterators) &&
             iterators[|components|] == []
    ensures components != [] ==>
              var up := components[..|components| - 1];
              StacksOk(n, up, iterators[..|components|]) && Covers(n, listed, up, iterators[..|components|])
    ensures components == [] ==> forall cs: seq<string> :: cs in listed <==> cs != [] && At(n, cs).Some?
  {
    var d := |components|;
    if components == [] {
      forall cs: seq<string> ensures !Pending(components, iterators, cs) {
        forall k: nat ensures !PendingAt(components, iterators, cs, k) {}
      }
    } else {
      var up, outer := components[..d - 1], iterators[..d];
      forall k | 0 <= k <= d - 1 ensures LevelOk(n, up, outer, k) {
        assert LevelOk(n, components, iterators, k) && up[..k] == components[..k];
      }
      forall cs: seq<string> ensures Pending(components, iterators, cs) <==> Pending(up, outer, cs) {
        forall k: nat ensures PendingAt(components, iterators, cs, k) <==> PendingAt(up, outer, cs, k) {
          if k < d { assert up[..k] == components[..k]; }
        }
      }
    }
  }

  /** A list without repetitions of places below `n` is no longer than there are such places. */
  lemma ListedFits(n: Node, listed: seq<seq<string>>)
    requires Distinct(listed) && forall cs :: cs in listed ==> cs != [] && At(n, cs).Some?
    ensures |listed| <= |Places(n)|
  {
    forall cs | cs in listed ensures cs in Places(n) { PlacesAre(n, cs); }
    DistinctFits(listed, Places(n));
  }

  lemma {:induction false} DistinctFits<T>(s: seq<T>, all: set<T>)
    requires Distinct(s) && forall x :: x in s ==> x in all
    ensures |s| <= |all|
    decreases |s|
  {
    if s != [] {
      var last := s[|s| - 1];
      var init := s[..|s| - 1];
      forall x | x in init ensures x in all - {last} { assert x in s; }
      DistinctFits(init, all - {last});
    }
  }

  /** The names of a directory, in whatever order the hash table yields them. */
  method NamesOf(children: map<string, Node>) returns (names: seq<string>)
    ensures Distinct(names) && forall c :: c in names <==> c in children
  {
    names := [];
    var unseen := children.Keys;
    while unseen != {}
      invariant Distinct(names) && unseen <= children.Keys
      invariant forall c :: c in names <==> c in children.Keys - unseen
    {
      var c :| c in unseen;
      unseen := unseen - {c};
      forall j | 0 <= j < |names| ensures names[j] != c { assert names[j] in names; }
      names := names + [c];
    }
  }

  /** `join("/")` */
  function Joined(cs: seq<string>): string {
    if cs == [] then "" else if |cs| == 1 then cs[0] else Joined(cs[..|cs| - 1]) + "/" + cs[|cs| - 1]
  }

  /**
   The loop of `enumerate_recursive` from directory `n`: every place below `n` is listed exactly once,
   the two stacks stay one apart, and both end up empty.
   */
  method ListBelow(n: Node) returns (paths: seq<string>, ghost places: seq<seq<string>>)
    requires n.Dir?
    ensures Distinct(places) && forall cs: seq<string> :: cs in places <==> cs != [] && At(n, cs).Some?
    ensures |paths| == |places| && forall k :: 0 <= k < |paths| ==> paths[k] == Joined(places[k])
  {
    hide Pending, LevelOk, Distinct, Places, Joined;
    paths, places := [], [];
    var componentStack: seq<string> := [];
    var names := NamesOf(n.children);
    var iteratorStack := [names];
    StartsCovered(n, names);
    while true
      invariant StacksOk(n, componentStack, iteratorStack) && Covers(n, places, componentStack, iteratorStack)
      invariant |paths| == |places| && forall k :: 0 <= k < |paths| ==> paths[k] == Joined(places[k])
      decreases |Places(n)| - |places|, |iteratorStack|
    {
      var d := |iteratorStack| - 1;
      ListedFits(n, places);
      if iteratorStack[d] != [] {
        var component := iteratorStack[d][0];
        AdvanceKeepsStacks(n, componentStack, iteratorStack);
        var node := At(n, componentStack + [component]).value;
        ghost var before := iteratorStack;
        iteratorStack := iteratorStack[d := iteratorStack[d][1..]];
        componentStack := componentStack + [component];
        paths := paths + [Joined(componentStack)];
        if node.Dir? {
          var inner := NamesOf(node.children);
          ListDirectory(n, places, componentStack[..d], before, inner);
          assert componentStack[..d] + [component] == componentStack;
          iteratorStack := iteratorStack + [inner];
          places := places + [componentStack];
        } else {
          ListFile(n, places, componentStack[..d], before);
          places := places + [componentStack];
          componentStack := componentStack[..d];
        }
        ListedFits(n, places);
      } else {
        LeaveDirectory(n, places, componentStack, iteratorStack);
        iteratorStack := iteratorStack[..d];
        if componentStack == [] { break; }
        componentStack := componentStack[..|componentStack| - 1];
      }
    }
    assert componentStack == [] && iteratorStack == [];
  }

  lemma StartsCovered(n: Node, names: seq<string>)
    requires n.Dir? && Distinct(names) && forall c :: c in names <==> c in n.children
    ensures StacksOk(n, [], [names]) && Covers(n, [], [], [names])
  {
    assert LevelOk(n, [], [names], 0);
    forall cs: seq<string> | cs != [] && At(n, cs).Some? ensures Pending([], [names], cs) {
      NamesBelow(n, cs, 0);
      assert PendingAt([], [names], cs, 0);
    }
  }
}
