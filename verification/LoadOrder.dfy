/**
 The order in which packaged libraries are loaded (src/environment.rs:146-233): Kahn's algorithm
 over the libraries' names, with hash tables whose iteration order is arbitrary.
 */
module LoadOrder {
  import opened Prelude

  datatype Node = Node(name: string, dependencies: seq<string>)

  datatype Outcome = Order(indices: seq<nat>) | Cycle(culprit: nat)

  const PREFIX: string := "/usr/lib/"

  /** `strip_prefix("/usr/lib/")`, or the path itself. */
  function Strip(path: string): string {
    if PREFIX <= path then path[|PREFIX|..] else path
  }

  // ---------------------------------------------------------------- what a load order is

  /** `i` stands for its name: it is the last node with that name. */
  predicate IsRepresentative(graph: seq<Node>, i: nat) {
    i < |graph| && forall j :: i < j < |graph| ==> graph[j].name != graph[i].name
  }

  predicate SameName(graph: seq<Node>, k: nat, b: nat) {
    k < |graph| && b < |graph| && graph[k].name == graph[b].name
  }

  predicate ListsAt(graph: seq<Node>, k: nat, j: nat, d: nat) {
    k < |graph| && j < |graph[k].dependencies| && d < |graph| && Strip(graph[k].dependencies[j]) == graph[d].name
  }

  /** Some node with `b`'s name lists `d`'s name as a dependency. */
  ghost predicate Needs(graph: seq<Node>, b: nat, d: nat) {
    && IsRepresentative(graph, b) && IsRepresentative(graph, d)
    && exists k: nat, j: nat :: SameName(graph, k, b) && ListsAt(graph, k, j, d)
  }

  predicate Distinct(s: seq<nat>) {
    forall p, q :: 0 <= p < q < |s| ==> s[p] != s[q]
  }

  /** Every name occurs once, after everything it depends on. */
  ghost predicate IsLoadOrder(graph: seq<Node>, order: seq<nat>) {
    && Distinct(order)
    && (forall i: nat :: i in order <==> IsRepresentative(graph, i))
    && (forall p: nat, d: nat :: p < |order| && Needs(graph, order[p], d) ==> d in order[..p])
  }

  /** Each element is needed by the one after it. */
  ghost predicate Walk(graph: seq<Node>, w: seq<nat>) {
    forall i :: 0 <= i < |w| - 1 ==> Needs(graph, w[i + 1], w[i])
  }

  ghost predicate IsCycle(graph: seq<Node>, w: seq<nat>) {
    |w| >= 2 && Walk(graph, w) && w[0] == w[|w| - 1]
  }

  ghost predicate HasCycle(graph: seq<Node>) {
    exists w: seq<nat> :: IsCycle(graph, w)
  }

  /** `i` needs, directly or indirectly, a node on a cycle. */
  ghost predicate DependsOnCycle(graph: seq<Node>, i: nat) {
    exists w: seq<nat>, a: nat :: LeadsFromCycle(graph, w, a, i)
  }

  ghost predicate LeadsFromCycle(graph: seq<Node>, w: seq<nat>, a: nat, i: nat) {
    0 < a < |w| && IsCycle(graph, w[..a + 1]) && Walk(graph, w) && w[|w| - 1] == i
  }

  // ---------------------------------------------------------------- the tables the algorithm keeps

  /** From a dependency to its dependent. */
  datatype Edge = Edge(dependency: nat, dependent: nat)

  /** `table` maps each name to its representative. */
  ghost predicate IsIndex(graph: seq<Node>, table: map<string, nat>) {
    && (forall i :: 0 <= i < |graph| ==> graph[i].name in table)
    && (forall n :: n in table ==> table[n] < |graph| && graph[table[n]].name == n && IsRepresentative(graph, table[n]))
  }

  /** The edges the dependencies `deps` of a node standing at `b` give, in order. */
  function EdgesOf(table: map<string, nat>, b: nat, deps: seq<string>): seq<Edge> {
    if deps == [] then []
    else
      var rest := EdgesOf(table, b, deps[..|deps| - 1]);
      var d := Strip(deps[|deps| - 1]);
      if d in table then rest + [Edge(table[d], b)] else rest
  }

  function Edges(table: map<string, nat>, graph: seq<Node>): seq<Edge>
    requires forall i :: 0 <= i < |graph| ==> graph[i].name in table
  {
    if graph == [] then []
    else
      var last := graph[|graph| - 1];
      Edges(table, graph[..|graph| - 1]) + EdgesOf(table, table[last.name], last.dependencies)
  }

  function Dependents(es: seq<Edge>, d: nat): seq<nat> {
    if es == [] then []
    else
      var rest := Dependents(es[..|es| - 1], d);
      var e := es[|es| - 1];
      if e.dependency == d then rest + [e.dependent] else rest
  }

  /** How many edges to `b` come from nodes not in `placed`. */
  function Remaining(es: seq<Edge>, placed: seq<nat>, b: nat): nat {
    if es == [] then 0
    else
      var e := es[|es| - 1];
      Remaining(es[..|es| - 1], placed, b) + (if e.dependent == b && e.dependency !in placed then 1 else 0)
  }

  lemma {:induction false} RemainingZero(es: seq<Edge>, placed: seq<nat>, b: nat)
    ensures Remaining(es, placed, b) == 0 <==> forall e :: e in es && e.dependent == b ==> e.dependency in placed
  {
    if es != [] {
      RemainingZero(es[..|es| - 1], placed, b);
      assert es == es[..|es| - 1] + [es[|es| - 1]];
    }
  }

  /** Placing one more node takes off exactly its dependents. */
  lemma {:induction false} PlacingTakesOff(es: seq<Edge>, placed: seq<nat>, node: nat, b: nat)
    requires node !in placed
    ensures Remaining(es, placed, b) == Remaining(es, placed + [node], b) + multiset(Dependents(es, node))[b]
  {
    if es != [] {
      PlacingTakesOff(es[..|es| - 1], placed, node, b);
    }
  }

  lemma {:induction false} DependentsAreEdges(es: seq<Edge>, d: nat)
    ensures forall b :: b in Dependents(es, d) ==> Edge(d, b) in es
  {
    if es != [] {
      DependentsAreEdges(es[..|es| - 1], d);
      assert es == es[..|es| - 1] + [es[|es| - 1]];
    }
  }

  lemma {:induction false} EdgesOfAre(table: map<string, nat>, b: nat, deps: seq<string>, e: Edge)
    ensures e in EdgesOf(table, b, deps) <==>
            e.dependent == b && exists j ::
                0 <= j < |deps| && Strip(deps[j]) in table && table[Strip(deps[j])] == e.dependency
  {
    if deps != [] {
      var init := deps[..|deps| - 1];
      EdgesOfAre(table, b, init, e);
      if exists j :: 0 <= j < |deps| && Strip(deps[j]) in table && table[Strip(deps[j])] == e.dependency {
        var j :| 0 <= j < |deps| && Strip(deps[j]) in table && table[Strip(deps[j])] == e.dependency;
        if j < |deps| - 1 { assert Strip(init[j]) in table; }
      }
      if j :| 0 <= j < |init| && Strip(init[j]) in table && table[Strip(init[j])] == e.dependency {
        assert Strip(deps[j]) in table;
      }
    }
  }

  predicate ComesFrom(table: map<string, nat>, graph: seq<Node>, k: nat, j: nat, e: Edge) {
    && k < |graph| && j < |graph[k].dependencies| && graph[k].name in table && table[graph[k].name] == e.dependent
    && Strip(graph[k].dependencies[j]) in table && table[Strip(graph[k].dependencies[j])] == e.dependency
  }

  lemma {:induction false} EdgesCome(table: map<string, nat>, graph: seq<Node>, e: Edge)
    requires forall i :: 0 <= i < |graph| ==> graph[i].name in table
    ensures e in Edges(table, graph) <==> exists k: nat, j: nat :: ComesFrom(table, graph, k, j, e)
  {
    if graph != [] {
      var init := graph[..|graph| - 1];
      var last := graph[|graph| - 1];
      EdgesCome(table, init, e);
      EdgesOfAre(table, table[last.name], last.dependencies, e);
      if k: nat, j: nat :| ComesFrom(table, graph, k, j, e) {
        if k < |init| { assert ComesFrom(table, init, k, j, e); }
      }
      if k: nat, j: nat :| ComesFrom(table, init, k, j, e) {
        assert ComesFrom(table, graph, k, j, e);
      }
      if e in EdgesOf(table, table[last.name], last.dependencies) {
        var j :| 0 <= j < |last.dependencies| && Strip(last.dependencies[j]) in table &&
          table[Strip(last.dependencies[j])] == e.dependency;
        assert ComesFrom(table, graph, |graph| - 1, j, e);
      }
    }
  }

  lemma RepresentativesAreUnique(graph: seq<Node>, a: nat, b: nat)
    requires IsRepresentative(graph, a) && IsRepresentative(graph, b) && graph[a].name == graph[b].name
    ensures a == b
  {
  }

  /** The edges built from the tables are exactly the dependencies between names. */
  lemma EdgesAreNeeds(table: map<string, nat>, graph: seq<Node>, d: nat, b: nat)
    requires IsIndex(graph, table)
    ensures Edge(d, b) in Edges(table, graph) <==> Needs(graph, b, d)
  {
    var e := Edge(d, b);
    EdgesCome(table, graph, e);
    if e in Edges(table, graph) {
      var k: nat, j: nat :| ComesFrom(table, graph, k, j, e);
      assert SameName(graph, k, b) && ListsAt(graph, k, j, d);
    }
    if Needs(graph, b, d) {
      var k: nat, j: nat :| SameName(graph, k, b) && ListsAt(graph, k, j, d);
      RepresentativesAreUnique(graph, table[graph[k].name], b);
      RepresentativesAreUnique(graph, table[graph[d].name], d);
      assert ComesFrom(table, graph, k, j, e);
    }
  }

  // ---------------------------------------------------------------- cycles

  /** Positions grow along a walk through a load order, so it cannot come back. */
  lemma {:induction false} WalksGoForward(graph: seq<Node>, order: seq<nat>, w: seq<nat>, p: nat)
    requires IsLoadOrder(graph, order) && Walk(graph, w) && |w| >= 2 && p < |order| && w[|w| - 1] == order[p]
    ensures w[0] in order[..p]
    decreases |w|
  {
    var prev := w[|w| - 2];
    assert Needs(graph, w[|w| - 2 + 1], w[|w| - 2]);
    assert prev in order[..p];
    if |w| > 2 {
      var q :| 0 <= q < p && order[q] == prev;
      var v := w[..|w| - 1];
      forall i | 0 <= i < |v| - 1 ensures Needs(graph, v[i + 1], v[i]) { assert Needs(graph, w[i + 1], w[i]); }
      WalksGoForward(graph, order, v, q);
    }
  }

  lemma LoadOrderExcludesCycles(graph: seq<Node>, order: seq<nat>)
    requires IsLoadOrder(graph, order)
    ensures !HasCycle(graph)
  {
    if w :| IsCycle(graph, w) {
      assert Needs(graph, w[|w| - 2 + 1], w[|w| - 2]);
      assert w[|w| - 1] in order;
      var p :| 0 <= p < |order| && order[p] == w[|w| - 1];
      WalksGoForward(graph, order, w, p);
    }
  }

  ghost predicate NeedsOneOf(graph: seq<Node>, b: nat, nodes: set<nat>) {
    exists d :: d in nodes && Needs(graph, b, d)
  }

  /** Every node of `stuck` needs another node of `stuck`. */
  ghost predicate Stuck(graph: seq<Node>, stuck: set<nat>) {
    forall b {:trigger NeedsOneOf(graph, b, stuck)} :: b in stuck ==> NeedsOneOf(graph, b, stuck)
  }

  lemma DistinctFits(s: seq<nat>, all: set<nat>)
    requires Distinct(s) && forall i :: 0 <= i < |s| ==> s[i] in all
    ensures |s| <= |all|
  {
    if s != [] {
      var init := s[..|s| - 1];
      DistinctFits(init, all - {s[|s| - 1]});
    }
  }

  lemma ExtendWalk(graph: seq<Node>, d: nat, w: seq<nat>)
    requires Walk(graph, w) && w != [] && Needs(graph, w[0], d)
    ensures Walk(graph, [d] + w)
  {
    var v := [d] + w;
    forall i | 0 <= i < |v| - 1 ensures Needs(graph, v[i + 1], v[i]) {
      if i > 0 { assert Needs(graph, w[i - 1 + 1], w[i - 1]); }
    }
  }

  /** A walk that meets its first node again starts with a cycle. */
  lemma CloseCycle(graph: seq<Node>, w: seq<nat>, a: nat)
    requires Walk(graph, w) && 0 < a < |w| && w[a] == w[0]
    ensures LeadsFromCycle(graph, w, a, w[|w| - 1])
  {
    var c := w[..a + 1];
    forall i | 0 <= i < |c| - 1 ensures Needs(graph, c[i + 1], c[i]) { assert Needs(graph, w[i + 1], w[i]); }
  }

  lemma DistinctPrepend(d: nat, w: seq<nat>)
    requires Distinct(w)
    ensures d !in w ==> Distinct([d] + w)
  {
  }

  lemma DistinctAppend(w: seq<nat>, d: nat)
    requires Distinct(w)
    ensures d !in w ==> Distinct(w + [d])
  {
  }

  /** Going backwards from a stuck node, some node must come twice. */
  lemma {:induction false} StuckLeadsToCycle(graph: seq<Node>, stuck: set<nat>, w: seq<nat>)
    requires Stuck(graph, stuck) && Walk(graph, w) && w != [] && Distinct(w) && forall i :: i in w ==> i in stuck
    ensures DependsOnCycle(graph, w[|w| - 1])
    decreases |stuck| - |w|
  {
    hide Walk, Needs, Distinct;
    assert NeedsOneOf(graph, w[0], stuck);
    var d :| d in stuck && Needs(graph, w[0], d);
    var v := [d] + w;
    ExtendWalk(graph, d, w);
    if d in w {
      var a :| 0 <= a < |w| && w[a] == d;
      CloseCycle(graph, v, a + 1);
    } else {
      DistinctPrepend(d, w);
      DistinctFits(v, stuck);
      StuckLeadsToCycle(graph, stuck, v);
    }
  }

  lemma DependingMeansCycle(graph: seq<Node>, i: nat)
    requires DependsOnCycle(graph, i)
    ensures HasCycle(graph)
  {
    var w: seq<nat>, a: nat :| LeadsFromCycle(graph, w, a, i);
  }

  // ---------------------------------------------------------------- the algorithm

  method IndexNames(graph: seq<Node>) returns (table: map<string, nat>)
    ensures IsIndex(graph, table)
  {
    table := map[];
    for idx := 0 to |graph|
      invariant IsIndex(graph[..idx], table)
    {
      table := table[graph[idx].name := idx];
    }
    assert graph[..|graph|] == graph;
  }

  /** `dependents` lists each node's dependents in edge order. */
  ghost predicate ListsDependents(dependents: map<nat, seq<nat>>, es: seq<Edge>) {
    forall d :: (if d in dependents then dependents[d] else []) == Dependents(es, d)
  }

  ghost predicate CountsDependencies(degrees: map<nat, nat>, nodes: set<nat>, es: seq<Edge>, placed: seq<nat>) {
    degrees.Keys == nodes && forall b :: b in nodes ==> degrees[b] == Remaining(es, placed, b)
  }

  lemma AppendEdge(es: seq<Edge>, e: Edge, b: nat)
    ensures Remaining(es + [e], [], b) == Remaining(es, [], b) + (if e.dependent == b then 1 else 0)
    ensures Dependents(es + [e], b) == Dependents(es, b) + (if e.dependency == b then [e.dependent] else [])
  {
    assert (es + [e])[..|es|] == es;
  }

  lemma TablesGrow(dependents: map<nat, seq<nat>>, degrees: map<nat, nat>, nodes: set<nat>, es: seq<Edge>, e: Edge)
    requires ListsDependents(dependents, es) && CountsDependencies(degrees, nodes, es, []) && e.dependent in nodes
    ensures var entry := if e.dependency in dependents then dependents[e.dependency] else [];
            ListsDependents(dependents[e.dependency := entry + [e.dependent]], es + [e])
    ensures CountsDependencies(degrees[e.dependent := degrees[e.dependent] + 1], nodes, es + [e], [])
  {
    var entry := if e.dependency in dependents then dependents[e.dependency] else [];
    var more := dependents[e.dependency := entry + [e.dependent]];
    forall d ensures (if d in more then more[d] else []) == Dependents(es + [e], d) {
      AppendEdge(es, e, d);
      assert (if d in dependents then dependents[d] else []) == Dependents(es, d);
    }
    forall b | b in nodes ensures Remaining(es + [e], [], b) ==
      Remaining(es, [], b) + (if e.dependent == b then 1 else 0)
    {
      AppendEdge(es, e, b);
    }
  }

  lemma NoTables(nodes: set<nat>, degrees: map<nat, nat>)
    requires degrees.Keys == nodes && forall b :: b in nodes ==> degrees[b] == 0
    ensures ListsDependents(map[], []) && CountsDependencies(degrees, nodes, [], [])
  {
  }

  /** The inner loop: the dependencies of one node. */
  method AddDependencies(table: map<string, nat>, binIndex: nat, deps: seq<string>,
                         dependents0: map<nat, seq<nat>>, degrees0: map<nat, nat>, ghost nodes: set<nat>,
                           ghost es0: seq<Edge>)
    returns (dependents: map<nat, seq<nat>>, degrees: map<nat, nat>)
    requires binIndex in nodes && ListsDependents(dependents0, es0) && CountsDependencies(degrees0, nodes, es0, [])
    ensures ListsDependents(dependents, es0 + EdgesOf(table, binIndex, deps))
    ensures CountsDependencies(degrees, nodes, es0 + EdgesOf(table, binIndex, deps), [])
  {
    hide ListsDependents, Remaining, Strip;
    dependents, degrees := dependents0, degrees0;
    ghost var es := es0;
    for j := 0 to |deps|
      invariant es == es0 + EdgesOf(table, binIndex, deps[..j])
      invariant ListsDependents(dependents, es) && CountsDependencies(degrees, nodes, es, [])
    {
      assert deps[..j + 1][..j] == deps[..j];
      var dependency := Strip(deps[j]);
      if dependency in table {
        var dylibIndex := table[dependency];
        TablesGrow(dependents, degrees, nodes, es, Edge(dylibIndex, binIndex));
        var entry := if dylibIndex in dependents then dependents[dylibIndex] else [];
        dependents := dependents[dylibIndex := entry + [binIndex]];
        degrees := degrees[binIndex := degrees[binIndex] + 1];
        es := es + [Edge(dylibIndex, binIndex)];
      }
    }
    assert deps[..|deps|] == deps;
  }

  method BuildTables(graph: seq<Node>, table: map<string, nat>)
          returns (dependents: map<nat, seq<nat>>, degrees: map<nat, nat>)
    requires forall i :: 0 <= i < |graph| ==> graph[i].name in table
    ensures ListsDependents(dependents, Edges(table, graph))
    ensures CountsDependencies(degrees, table.Values, Edges(table, graph), [])
  {
    hide ListsDependents, CountsDependencies;
    dependents := map[];
    degrees := map idx | idx in table.Values :: 0;
    NoTables(table.Values, degrees);
    for k := 0 to |graph|
      invariant ListsDependents(dependents, Edges(table, graph[..k]))
      invariant CountsDependencies(degrees, table.Values, Edges(table, graph[..k]), [])
    {
      assert graph[..k + 1][..k] == graph[..k];
      dependents, degrees := AddDependencies(table, table[graph[k].name], graph[k].dependencies, dependents, degrees,
                                             table.Values, Edges(table, graph[..k]));
    }
    assert graph[..|graph|] == graph;
  }

  // ---------------------------------------------------------------- sorting

  /** Placed and queued nodes are distinct nodes, and each placed one follows what it depends on. */
  ghost predicate PlacedWell(es: seq<Edge>, nodes: set<nat>, placed: seq<nat>, queue: seq<nat>) {
    && Distinct(placed + queue)
    && (forall i :: i in placed + queue ==> i in nodes)
    && (forall p: nat, d: nat :: p < |placed| && Edge(d, placed[p]) in es ==> d in placed[..p])
  }

  /** The nodes whose count has reached zero are exactly those placed or queued. */
  ghost predicate ZeroesOut(degrees: map<nat, nat>, placed: seq<nat>, queue: seq<nat>) {
    forall b :: b in degrees ==> (degrees[b] == 0 <==> b in placed + queue)
  }

  /** Halfway through the dependents `ds` of `node`: the first `j` have been counted off. */
  ghost predicate CountedOff(degrees: map<nat, nat>, nodes: set<nat>, es: seq<Edge>, placed: seq<nat>, ds: seq<nat>,
          j: nat)
    requires j <= |ds|
  {
    degrees.Keys == nodes && forall b :: b in nodes ==> degrees[b] + multiset(ds[..j])[b] == Remaining(es, placed, b)
  }

  lemma CountOneOff(ds: seq<nat>, j: nat, b: nat)
    requires j < |ds|
    ensures multiset(ds[..j + 1])[b] == multiset(ds[..j])[b] + (if ds[j] == b then 1 else 0)
    ensures multiset(ds[..j + 1])[b] <= multiset(ds)[b]
  {
    assert ds[..j + 1] == ds[..j] + [ds[j]];
    assert ds == ds[..j + 1] + ds[j + 1..];
  }

  /** The count being taken off is there, and when it reaches zero for a node it does so for the first time. */
  lemma CountStaysPositive(degrees: map<nat, nat>, nodes: set<nat>, es: seq<Edge>, placed: seq<nat>, node: nat, j: nat)
    requires node !in placed
    requires var ds := Dependents(es, node); j < |ds| && ds[j] in nodes && CountedOff(degrees, nodes, es, placed, ds, j)
    ensures degrees[Dependents(es, node)[j]] > 0
    ensures var ds := Dependents(es, node);
            CountedOff(degrees[ds[j] := degrees[ds[j]] - 1], nodes, es, placed, ds, j + 1)
  {
    var ds := Dependents(es, node);
    PlacingTakesOff(es, placed, node, ds[j]);
    CountOneOff(ds, j, ds[j]);
    var after := degrees[ds[j] := degrees[ds[j]] - 1];
    forall b | b in nodes ensures after[b] + multiset(ds[..j + 1])[b] == Remaining(es, placed, b) {
      CountOneOff(ds, j, b);
    }
  }

  /** Lowering a positive count, and queueing the node if it reaches zero. */
  lemma OneMoreZero(degrees: map<nat, nat>, placed: seq<nat>, queue: seq<nat>, node: nat)
    requires ZeroesOut(degrees, placed, queue) && Distinct(placed + queue) && node in degrees && degrees[node] > 0
    ensures var after := degrees[node := degrees[node] - 1];
            var queue1 := if after[node] == 0 then queue + [node] else queue;
            ZeroesOut(after, placed, queue1) && Distinct(placed + queue1)
  {
    DistinctAppend(placed + queue, node);
    assert placed + (queue + [node]) == placed + queue + [node];
  }

  method CountOffDependents(ds: seq<nat>, degrees0: map<nat, nat>, queue0: seq<nat>,
                                               ghost nodes: set<nat>, ghost es: seq<Edge>, ghost placed: seq<nat>,
                                                 ghost node: nat)
    returns (degrees: map<nat, nat>, queue: seq<nat>)
    requires ds == Dependents(es, node) && node !in placed
    requires CountsDependencies(degrees0, nodes, es, placed)
    requires Distinct(placed + [node] + queue0) && ZeroesOut(degrees0, placed + [node], queue0)
    requires forall i :: i in queue0 ==> i in nodes
    requires forall e :: e in es ==> e.dependent in nodes
    ensures CountsDependencies(degrees, nodes, es, placed + [node])
    ensures Distinct(placed + [node] + queue) && ZeroesOut(degrees, placed + [node], queue)
    ensures forall i :: i in queue ==> i in nodes
  {
    degrees, queue := degrees0, queue0;
    ghost var now := placed + [node];
    DependentsAreEdges(es, node);
    assert CountedOff(degrees, nodes, es, placed, ds, 0);
    hide Distinct, ZeroesOut, Remaining, Dependents;
    for j := 0 to |ds|
      invariant CountedOff(degrees, nodes, es, placed, ds, j)
      invariant Distinct(now + queue) && ZeroesOut(degrees, now, queue)
      invariant forall i :: i in queue ==> i in nodes
    {
      var dependant := ds[j];
      assert Edge(node, dependant) in es;
      CountStaysPositive(degrees, nodes, es, placed, node, j);
      OneMoreZero(degrees, now, queue, dependant);
      degrees := degrees[dependant := degrees[dependant] - 1];
      if degrees[dependant] == 0 { queue := queue + [dependant]; }
    }
    forall b | b in nodes ensures degrees[b] == Remaining(es, now, b) {
      PlacingTakesOff(es, placed, node, b);
      assert ds[..|ds|] == ds;
    }
  }

  /** The nodes without dependencies, in whatever order the hash table yields them. */
  method Leaves(degrees: map<nat, nat>) returns (leaves: seq<nat>)
    ensures Distinct(leaves) && forall i :: i in leaves <==> i in degrees && degrees[i] == 0
  {
    leaves := [];
    var unseen := degrees.Keys;
    while unseen != {}
      invariant Distinct(leaves) && unseen <= degrees.Keys
      invariant forall i :: i in leaves <==> i in degrees.Keys - unseen && degrees[i] == 0
    {
      var node :| node in unseen;
      unseen := unseen - {node};
      if degrees[node] == 0 { leaves := leaves + [node]; }
    }
  }

  /** A node whose count is not zero, if there is one. */
  method FindUnresolved(degrees: map<nat, nat>) returns (r: Option<nat>)
    ensures match r
            case Some(i) => i in degrees && degrees[i] > 0
            case None => forall i :: i in degrees ==> degrees[i] == 0
  {
    if i :| i in degrees && degrees[i] > 0 { return Some(i); }
    return None;
  }

  /** The nodes left over when the queue runs dry all need one another. */
  lemma LeftOversAreStuck(graph: seq<Node>, table: map<string, nat>, degrees: map<nat, nat>, placed: seq<nat>)
    requires IsIndex(graph, table) && ZeroesOut(degrees, placed, [])
    requires CountsDependencies(degrees, table.Values, Edges(table, graph), placed)
    ensures Stuck(graph, set b | b in table.Values && degrees[b] > 0)
  {
    var es := Edges(table, graph);
    var stuck := set b | b in table.Values && degrees[b] > 0;
    assert placed + [] == placed;
    forall b | b in stuck ensures NeedsOneOf(graph, b, stuck) {
      RemainingZero(es, placed, b);
      var e :| e in es && e.dependent == b && e.dependency !in placed;
      EdgesAreNeeds(table, graph, e.dependency, b);
      RepresentativeIsIndexed(graph, table, e.dependency);
      assert e.dependency in stuck;
    }
  }

  lemma RepresentativeIsIndexed(graph: seq<Node>, table: map<string, nat>, i: nat)
    requires IsIndex(graph, table)
    ensures IsRepresentative(graph, i) <==> i in table.Values
  {
    if IsRepresentative(graph, i) { RepresentativesAreUnique(graph, table[graph[i].name], i); }
  }

  lemma PlacingAllIsLoadOrder(graph: seq<Node>, table: map<string, nat>, placed: seq<nat>)
    requires IsIndex(graph, table) && PlacedWell(Edges(table, graph), table.Values, placed, [])
    requires forall b :: b in table.Values ==> b in placed
    ensures IsLoadOrder(graph, placed)
  {
    assert placed + [] == placed;
    forall i: nat ensures i in placed <==> IsRepresentative(graph, i) { RepresentativeIsIndexed(graph, table, i); }
    forall p: nat, d: nat | p < |placed| && Needs(graph, placed[p], d) ensures d in placed[..p] {
      EdgesAreNeeds(table, graph, d, placed[p]);
    }
  }

  lemma EdgesStayInside(graph: seq<Node>, table: map<string, nat>)
    requires IsIndex(graph, table)
    ensures forall e :: e in Edges(table, graph) ==> e.dependent in table.Values
  {
    forall e | e in Edges(table, graph) ensures e.dependent in table.Values {
      EdgesAreNeeds(table, graph, e.dependency, e.dependent);
      RepresentativeIsIndexed(graph, table, e.dependent);
    }
  }

  /** Taking the first queued node, whose dependencies are all placed, keeps the order. */
  lemma MoveFirst(es: seq<Edge>, nodes: set<nat>, placed: seq<nat>, queue: seq<nat>)
    requires queue != [] && PlacedWell(es, nodes, placed, queue)
    requires forall e :: e in es && e.dependent == queue[0] ==> e.dependency in placed
    ensures PlacedWell(es, nodes, placed + [queue[0]], queue[1..]) && queue[0] !in placed
  {
    assert placed + [queue[0]] + queue[1..] == placed + queue;
    var after := placed + [queue[0]];
    forall p: nat, d: nat | p < |after| && Edge(d, after[p]) in es ensures d in after[..p] {
      if p < |placed| { assert after[..p] == placed[..p]; } else { assert after[..p] == placed; }
    }
    forall i | 0 <= i < |placed| ensures placed[i] != queue[0] {
      assert (placed + queue)[i] == placed[i] && (placed + queue)[|placed|] == queue[0];
    }
  }

  /** The main loop: place nodes from the front of the queue until it is empty. */
  method PlaceAll(dependents: map<nat, seq<nat>>, degrees0: map<nat, nat>, leaves: seq<nat>, ghost nodes: set<nat>,
          ghost es: seq<Edge>)
    returns (sorted: seq<nat>, degrees: map<nat, nat>)
    requires ListsDependents(dependents, es) && CountsDependencies(degrees0, nodes, es, [])
    requires PlacedWell(es, nodes, [], leaves) && ZeroesOut(degrees0, [], leaves)
    requires forall e :: e in es ==> e.dependent in nodes
    ensures PlacedWell(es, nodes, sorted, []) && ZeroesOut(degrees, sorted, [])
    ensures CountsDependencies(degrees, nodes, es, sorted)
  {
    hide Remaining, Dependents;
    var leafNodes := leaves;
    sorted, degrees := [], degrees0;
    while leafNodes != []
      invariant PlacedWell(es, nodes, sorted, leafNodes)
      invariant CountsDependencies(degrees, nodes, es, sorted) && ZeroesOut(degrees, sorted, leafNodes)
      decreases |nodes| - |sorted|
    {
      var node := leafNodes[0];
      assert degrees[node] == 0;
      RemainingZero(es, sorted, node);
      MoveFirst(es, nodes, sorted, leafNodes);
      ghost var before := sorted;
      sorted, leafNodes := sorted + [node], leafNodes[1..];
      DistinctFits(sorted + leafNodes, nodes);
      var ds := if node in dependents then dependents[node] else [];
      degrees, leafNodes := CountOffDependents(ds, degrees, leafNodes, nodes, es, before, node);
    }
  }

  /**
   `generate_binary_load_order`. Whatever the hash tables' iteration order, it succeeds exactly when
   no name depends on itself through others, and then every name comes once, after what it depends
   on; otherwise the node it names needs one on a cycle.
   */
  method GenerateBinaryLoadOrder(graph: seq<Node>) returns (r: Outcome)
    ensures r.Order? <==> !HasCycle(graph)
    ensures r.Order? ==> IsLoadOrder(graph, r.indices)
    ensures r.Cycle? ==> IsRepresentative(graph, r.culprit) && DependsOnCycle(graph, r.culprit)
  {
    var table := IndexNames(graph);
    var dependents, degrees := BuildTables(graph, table);
    var leafNodes := Leaves(degrees);
    EdgesStayInside(graph, table);
    assert [] + leafNodes == leafNodes;
    hide IsLoadOrder, HasCycle, DependsOnCycle, Remaining, Dependents, Edges, IsRepresentative, Stuck;
    var sorted;
    sorted, degrees := PlaceAll(dependents, degrees, leafNodes, table.Values, Edges(table, graph));
    var unresolved := FindUnresolved(degrees);
    if unresolved.Some? {
      LeftOversAreStuck(graph, table, degrees, sorted);
      RepresentativeIsIndexed(graph, table, unresolved.value);
      StuckLeadsToCycle(graph, set b | b in table.Values && degrees[b] > 0, [unresolved.value]);
      DependingMeansCycle(graph, unresolved.value);
      return Cycle(unresolved.value);
    }
    assert sorted + [] == sorted;
    PlacingAllIsLoadOrder(graph, table, sorted);
    LoadOrderExcludesCycles(graph, sorted);
    return Order(sorted);
  }

  // ---------------------------------------------------------------- how much a load order covers

  /** A load order lists every node exactly when no two nodes share a name. */
  lemma OrderCoversAllIffNamesDistinct(graph: seq<Node>, order: seq<nat>)
    requires IsLoadOrder(graph, order)
    ensures (forall i: nat :: i < |graph| ==> i in order) <==>
            (forall i, j :: 0 <= i < j < |graph| ==> graph[i].name != graph[j].name)
  {
    if forall i: nat :: i < |graph| ==> i in order {
      forall i, j | 0 <= i < j < |graph| ensures graph[i].name != graph[j].name {
        assert i in order && IsRepresentative(graph, i);
      }
    }
    if forall i, j :: 0 <= i < j < |graph| ==> graph[i].name != graph[j].name {
      forall i: nat | i < |graph| ensures i in order { assert IsRepresentative(graph, i); }
    }
  }

  /** `path` is `name`, or `name` under the system library directory. */
  predicate Names(path: string, name: string) {
    (path == name && !("/usr/lib/" <= path)) || path == "/usr/lib/" + name
  }

  /** With distinct names, to need a node is simply to list its name, with or without the system prefix. */
  lemma NeedsWithDistinctNames(graph: seq<Node>, b: nat, d: nat)
    requires forall i, j :: 0 <= i < j < |graph| ==> graph[i].name != graph[j].name
    requires b < |graph| && d < |graph|
    ensures Needs(graph, b, d) <==>
            exists path :: path in graph[b].dependencies && Names(path, graph[d].name)
  {
    if path :| path in graph[b].dependencies && Names(path, graph[d].name) {
      var j :| 0 <= j < |graph[b].dependencies| && graph[b].dependencies[j] == path;
      assert path == PREFIX + graph[d].name ==> path[|PREFIX|..] == graph[d].name;
      assert SameName(graph, b, b) && ListsAt(graph, b, j, d);
    }
    if Needs(graph, b, d) {
      var k: nat, j: nat :| SameName(graph, k, b) && ListsAt(graph, k, j, d);
      assert k == b;
      var path := graph[b].dependencies[j];
      if PREFIX <= path { assert path == PREFIX + path[|PREFIX|..]; }
      assert path in graph[b].dependencies;
    }
  }
}
