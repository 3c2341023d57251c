/** What `recompute_routes_at` establishes about a graph, whatever state it starts from. */
module Recompute {
  import opened Basics
  import opened Names
  import opened Topology
  import opened Trees
  import opened Prim
  import opened Routes
  import opened Progress
  import opened Agreement
  import opened Graph

  /** The nodes joined to this one by two-way links. */
  ghost predicate IsReachableSet(g: Mesh, r: set<Name>) {
    forall n :: n in r <==> Reachable(g, n)
  }

  /** A walk that starts on one side of a cut and ends on the other crosses it over a link between reachable nodes. */
  lemma {:induction false} WalkCrosses(g: Mesh, p: seq<Name>, n: Name, c: set<Name>) returns (k: EdgeKey)
    requires WalkTo(g, p, n) && (g.myself in c) != (n in c)
    ensures TwoWay(g.edges, k) && Crosses(k, c) && Reachable(g, k.from) && Reachable(g, k.to)
    decreases |p|
  {
    var q, u := p[..|p| - 1], p[|p| - 2];
    assert WalkTo(g, q, u);
    assert LastStep(p) == EdgeKey(u, n);
    if (u in c) != (n in c) {
      k := EdgeKey(u, n);
    } else {
      k := WalkCrosses(g, q, u, c);
    }
  }

  lemma ReachableIsComponent(g: Mesh, r: set<Name>)
    requires IsReachableSet(g, r)
    ensures Component(g.edges, r) && g.myself in r
  {
    assert WalkTo(g, [g.myself], g.myself);
    forall k | k in Links(g.edges) ensures k.from in r <==> k.to in r {
      assert EdgeKey(k.from, k.to) == k && EdgeKey(k.to, k.from) == k.Reverse();
      if k.from in r { ReachableExtends(g, k.from, k.to); }
      if k.to in r { ReachableExtends(g, k.to, k.from); }
    }
    forall c: set<Name> | c != {} && c < r ensures Bridged(Inside(Links(g.edges), r), c) {
      var n :| n in r && (g.myself in c) != (n in c);
      var p :| WalkTo(g, p, n);
      var k := WalkCrosses(g, p, n, c);
      assert k in Inside(Links(g.edges), r);
    }
  }

  lemma ReconcileAllFacts(nodes: Nodes, experimental: bool, now: int)
    ensures var after := ReconcileAll(nodes, experimental, now);
            && after.Keys == nodes.Keys
            && (forall n :: n in nodes ==>
                  && after[n].name == nodes[n].name && after[n].status.reachable == nodes[n].status.visited
                  && after[n].status.visited == nodes[n].status.visited)
            && (forall n :: Visited(nodes, n) ==>
                  && SourceOf(after[n]) == SourceOf(nodes[n]) && after[n].route == nodes[n].route
                  && after[n].options == nodes[n].options && after[n].status.indirect == nodes[n].status.indirect)
  {
  }

  /** What the search leaves alone: everything but the route of a visited node, and the options of this node. */
  ghost predicate Untouched(g: Mesh, a: Nodes, b: Nodes) {
    && a.Keys == b.Keys
    && (forall n :: n in a ==>
          b[n] == a[n].(status := a[n].status.(visited := b[n].status.visited, indirect := b[n].status.indirect),
                        route := b[n].route, options := b[n].options))
    && (forall n :: n in a && !b[n].status.visited ==> b[n] == Reset(a[n]))
    && (g.myself in a ==> b[g.myself].options == a[g.myself].options)
  }

  lemma StartIsUntouched(g: Mesh, nodes: Nodes)
    requires g.myself in nodes
    ensures Untouched(g, nodes, Start(g, nodes).nodes)
  {
  }

  lemma RelaxIsUntouched(g: Mesh, src: SourceState, e: Edge, nodes: Nodes, s: Search)
    requires Untouched(g, nodes, s.nodes)
    ensures Untouched(g, nodes, RelaxEdge(g, src, e, s).nodes)
  {
    hide ShouldKeepExistingRoute, UpdatesNextHop;
  }

  lemma {:induction false} RelaxFirstIsUntouched(g: Mesh, src: SourceState, out: seq<Edge>, i: nat, nodes: Nodes,
      s: Search)
    requires i <= |out| && Untouched(g, nodes, s.nodes)
    ensures Untouched(g, nodes, RelaxFirst(g, src, out, i, s).nodes)
  {
    hide RelaxEdge, Untouched;
    if i == 0 {
    } else {
      RelaxFirstIsUntouched(g, src, out, i - 1, nodes, s);
      RelaxIsUntouched(g, src, out[i - 1], nodes, RelaxFirst(g, src, out, i - 1, s));
    }
  }

  lemma {:induction false} RunIsUntouched(g: Mesh, nodes: Nodes, n: nat)
    requires g.myself in nodes
    ensures Untouched(g, nodes, Iterate(g, Start(g, nodes), n).nodes)
  {
    hide Start, Untouched, RelaxFirst, SourceOf, OutEdges;
    StartIsUntouched(g, nodes);
    if n == 0 {
    } else {
      RunIsUntouched(g, nodes, n - 1);
      var s := Iterate(g, Start(g, nodes), n - 1);
      if s.queue != [] && s.queue[0] in s.nodes && SourceOf(s.nodes[s.queue[0]]).Some? {
        var out := OutEdges(g.edges, s.queue[0]);
        RelaxFirstIsUntouched(g, SourceOf(s.nodes[s.queue[0]]).value, out, |out|, nodes, Search(s.nodes, s.queue[1..]));
      }
    }
  }

  lemma SearchIsUntouched(g: Mesh, nodes: Nodes, searched: Nodes)
    requires g.myself in nodes && SearchEnds(g, nodes, searched)
    ensures Untouched(g, nodes, searched)
  {
    var i: nat :| Iterate(g, Start(g, nodes), i) == Search(searched, []);
    RunIsUntouched(g, nodes, i);
  }

  lemma ReachableAfterSearch(g: Mesh, nodes: Nodes, searched: Nodes, experimental: bool, now: int)
    requires g.myself in nodes && EdgesWithin(g.edges, nodes) && SearchEnds(g, nodes, searched)
    ensures var after := ReconcileAll(searched, experimental, now);
            && IsReachableSet(g, ReachableNames(after))
            && (forall n :: n in ReachableNames(after) ==>
                  Visited(searched, n) && NodeSound(g, n, after[n]) && after[n].route == searched[n].route)
  {
    var after := ReconcileAll(searched, experimental, now);
    ReconcileAllFacts(searched, experimental, now);
    SearchIsSound(g, nodes, searched);
    hide SearchEnds, ReconcileAll, SourceOf, Reachable, DirectlyReachable, Realised, EdgesWithin;
    forall n ensures n in ReachableNames(after) <==> Visited(searched, n) {
    }
    forall n | Visited(searched, n) ensures NodeSound(g, n, after[n]) {
      assert NodeSound(g, n, searched[n]);
    }
  }

  /** After recomputing, a node is marked reachable exactly when two-way links join it to this one, its route is a sound
      one, and the broadcast links are a minimum spanning tree of exactly the reachable nodes. */
  lemma RecomputeIsSound(before: GraphView, after: GraphView, experimental: bool, now: int)
    requires before.Valid() && Recomputed(before, after, experimental, now)
    ensures after.Valid() && after.nodes.Keys == before.nodes.Keys
    ensures IsReachableSet(before.Searched(), ReachableNames(after.nodes))
    ensures forall n :: n in ReachableNames(after.nodes) ==> NodeSound(before.Searched(), n, after.nodes[n])
    ensures MinimumSpanningTree(after.edges, ReachableNames(after.nodes), after.mst)
  {
    var g := before.Searched();
    var searched :| RecomputedThrough(before, after, searched, experimental, now);
    StaysValid(before, after, searched, experimental, now);
    hide SearchEnds, ReconcileAll, NodeSound, MinimumSpanningTree, Component, Kruskal, IsReachableSet, ReachableNames;
    ReachableAfterSearch(g, before.nodes, searched, experimental, now);
    ReachableIsComponent(g, ReachableNames(after.nodes));
    KruskalIsMinimumSpanningTree(before.edges, ReachableNames(after.nodes));
  }

  lemma StaysValid(before: GraphView, after: GraphView, searched: Nodes, experimental: bool, now: int)
    requires before.Valid() && RecomputedThrough(before, after, searched, experimental, now)
    ensures after.Valid() && after.nodes.Keys == before.nodes.Keys
  {
    SearchIsUntouched(before.Searched(), before.nodes, searched);
    ReconcileAllFacts(searched, experimental, now);
    hide SearchEnds, ReconcileAll, Kruskal;
  }

  /** Without indirect edges every reachable node also has a best route, spelled out by its previous edges. */
  lemma RecomputeIsOptimal(before: GraphView, after: GraphView, experimental: bool, now: int, n: Name)
    requires before.Valid() && Recomputed(before, after, experimental, now)
    requires NoIndirect(before.edges) && n in ReachableNames(after.nodes)
    ensures var p := PreviousChain(after.nodes, n, Hops(after.nodes, n));
            && BestRoute(before.Searched(), p, n)
            && after.nodes[n].route.distance == Some(|p| - 1)
            && after.nodes[n].route.weightedDistance == Some(WalkWeight(before.edges, p))
            && after.nodes[n].route.nextHop == Some(if |p| > 1 then p[1] else n)
  {
    var g := before.Searched();
    var searched :| RecomputedThrough(before, after, searched, experimental, now);
    RecomputeIsSound(before, after, experimental, now);
    SearchIsSound(g, before.nodes, searched);
    SearchSettles(g, before.nodes, searched);
    ReconcileAllFacts(searched, experimental, now);
    assert Reachable(g, n) && Visited(searched, n);
    SettledRoute(g, searched, n);
    SameChain(searched, after.nodes, n, Hops(searched, n), g);
    assert Hops(after.nodes, n) == Hops(searched, n);
  }

  lemma {:induction false} SameChain(a: Nodes, b: Nodes, n: Name, k: nat, g: Mesh)
    requires forall m :: Visited(a, m) ==> m in b && b[m].route == a[m].route
    requires forall v {:trigger Explained(g, a, v)} :: Visited(a, v) && v != g.myself ==> Explained(g, a, v)
    requires Visited(a, n) && Hops(a, n) == k && Visited(a, g.myself) && Hops(a, g.myself) == 0
    ensures PreviousChain(a, n, k) == PreviousChain(b, n, k)
    decreases k
  {
    if k == 0 {
    } else {
      assert Explained(g, a, n);
      SameChain(a, b, a[n].route.previousEdge.value.from, k - 1, g);
    }
  }

  /** A graph whose routes, reachability and tree are what a fresh search of its edges would find. */
  ghost predicate UpToDate(v: GraphView) {
    && v.Valid()
    && (exists searched :: FoundBy(v, searched))
    && v.mst == Kruskal(v.edges, ReachableNames(v.nodes))
  }

  ghost predicate FoundBy(v: GraphView, searched: Nodes)
    requires v.Valid()
  {
    && SearchEnds(v.Searched(), v.nodes, searched)
    && (forall n :: n in v.nodes ==> v.nodes[n].status.reachable == v.nodes[n].status.visited)
    && NodesAgree(v.myself, ReachableNames(v.nodes), searched, v.nodes)
    && IsReachableSet(v.Searched(), ReachableNames(v.nodes))
  }

  lemma LinksAgreeWithSelf(g: Mesh, r: set<Name>)
    requires IsReachableSet(g, r)
    ensures LinksAgree(r, g.edges, g.edges)
  {
    forall u, v | u in r && TwoWay(g.edges, EdgeKey(u, v)) ensures v in r {
      ReachableExtends(g, u, v);
    }
  }

  lemma RecomputedIsUpToDate(before: GraphView, after: GraphView, experimental: bool, now: int)
    requires before.Valid() && Recomputed(before, after, experimental, now)
    ensures UpToDate(after)
  {
    hide SearchEnds, ReconcileAll, NodeSound, MinimumSpanningTree, NodesAgree, IsReachableSet, Kruskal, ReachableNames,
      EdgesWithin;
    RecomputeIsSound(before, after, experimental, now);
    var searched :| RecomputedThrough(before, after, searched, experimental, now);
    var again := SearchTerminates(after.Searched(), after.nodes);
    SearchedAgain(before.Searched(), before.nodes, after.nodes, searched, again, experimental, now);
    FlagsMatch(searched, after.nodes, experimental, now);
    assert FoundBy(after, again);
  }

  lemma FlagsMatch(searched: Nodes, after: Nodes, experimental: bool, now: int)
    requires after == ReconcileAll(searched, experimental, now)
    ensures forall n :: n in after ==> after[n].status.reachable == after[n].status.visited
  {
    ReconcileAllFacts(searched, experimental, now);
  }

  /** Searching a reconciled graph again finds the routes it already has. */
  lemma SearchedAgain(g: Mesh, nodes: Nodes, after: Nodes, searched: Nodes, again: Nodes, experimental: bool, now: int)
    requires g.myself in nodes && EdgesWithin(g.edges, nodes) && EdgesWithin(g.edges, after) && g.myself in after
    requires SearchEnds(g, nodes, searched) && SearchEnds(g, after, again)
    requires after == ReconcileAll(searched, experimental, now) && after.Keys == nodes.Keys
    ensures NodesAgree(g.myself, ReachableNames(after), again, after)
  {
    var r := ReachableNames(after);
    ReachableAfterSearch(g, nodes, searched, experimental, now);
    ReachableIsComponent(g, r);
    LinksAgreeWithSelf(g, r);
    SearchesAgree(g, g, r, nodes, after, searched, again);
    ReconcileAllFacts(searched, experimental, now);
    hide SearchEnds, ReconcileAll, NodeSound, LinksAgree, IsReachableSet, Component, EdgesWithin;
    forall n | n in r ensures n in again && SameForSearch(g.myself, n, again[n], after[n]) {
      assert Visited(searched, n) && SameForSearch(g.myself, n, searched[n], again[n]);
    }
  }

  // What being up to date means, and what keeps it.

  lemma FoundRoutes(v: GraphView, searched: Nodes)
    requires v.Valid() && FoundBy(v, searched)
    ensures IsReachableSet(v.Searched(), ReachableNames(v.nodes))
    ensures forall n :: n in ReachableNames(v.nodes) ==>
              && n in v.nodes && Visited(searched, n) && SourceOf(v.nodes[n]) == SourceOf(searched[n])
              && NodeSound(v.Searched(), n, searched[n]) && v.nodes[n].route == searched[n].route
  {
    var g, r := v.Searched(), ReachableNames(v.nodes);
    SearchIsSound(g, v.nodes, searched);
    hide SearchEnds, EdgesWithin, Reachable, DirectlyReachable, Realised, NodeSound;
    forall n | n in r
      ensures n in v.nodes && Visited(searched, n) && SourceOf(v.nodes[n]) == SourceOf(searched[n])
              && NodeSound(g, n, searched[n]) && v.nodes[n].route == searched[n].route
    {
      assert Reachable(g, n);
      assert SameForSearch(v.myself, n, searched[n], v.nodes[n]);
    }
  }

  lemma SoundBySource(g: Mesh, n: Name, a: Node, b: Node)
    requires NodeSound(g, n, a) && SourceOf(a) == SourceOf(b)
    ensures NodeSound(g, n, b)
  {
  }

  /** In a graph that is up to date, the nodes marked reachable are those joined by two-way links, their routes are
      sound, and the broadcast links are a minimum spanning tree of exactly them. */
  lemma UpToDateIsSound(v: GraphView)
    requires UpToDate(v)
    ensures v.Valid() && IsReachableSet(v.Searched(), ReachableNames(v.nodes))
    ensures forall n :: n in ReachableNames(v.nodes) ==> n in v.nodes && NodeSound(v.Searched(), n, v.nodes[n])
    ensures v.mst == Kruskal(v.edges, ReachableNames(v.nodes))
    ensures MinimumSpanningTree(v.edges, ReachableNames(v.nodes), v.mst)
  {
    var searched: Nodes :| FoundBy(v, searched);
    FoundRoutes(v, searched);
    hide SearchEnds, NodeSound, MinimumSpanningTree, Component, Kruskal, IsReachableSet, ReachableNames, SourceOf,
      NodesAgree, EdgesWithin;
    ReachableIsComponent(v.Searched(), ReachableNames(v.nodes));
    KruskalIsMinimumSpanningTree(v.edges, ReachableNames(v.nodes));
    forall n | n in ReachableNames(v.nodes) ensures n in v.nodes && NodeSound(v.Searched(), n, v.nodes[n]) {
      SoundBySource(v.Searched(), n, searched[n], v.nodes[n]);
    }
  }

  lemma UpToDateIsOptimal(v: GraphView, n: Name)
    requires UpToDate(v) && NoIndirect(v.edges) && n in ReachableNames(v.nodes)
    ensures var p := PreviousChain(v.nodes, n, Hops(v.nodes, n));
            && BestRoute(v.Searched(), p, n)
            && v.nodes[n].route.distance == Some(|p| - 1)
            && v.nodes[n].route.weightedDistance == Some(WalkWeight(v.edges, p))
            && v.nodes[n].route.nextHop == Some(if |p| > 1 then p[1] else n)
  {
    var g := v.Searched();
    var searched: Nodes :| FoundBy(v, searched);
    FoundRoutes(v, searched);
    SearchIsSound(g, v.nodes, searched);
    SearchSettles(g, v.nodes, searched);
    SettledRoute(g, searched, n);
    hide SearchEnds, Settled, BestRoute, NodeSound, PreviousChain, NoIndirect, EdgesWithin, Kruskal;
    forall m | Visited(searched, m) ensures m in v.nodes && v.nodes[m].route == searched[m].route {
      assert Reachable(g, m) && m in ReachableNames(v.nodes);
    }
    ChainIsKept(g, searched, v.nodes, n);
  }

  lemma ChainIsKept(g: Mesh, a: Nodes, b: Nodes, n: Name)
    requires Settled(g, a) && Visited(a, n)
    requires forall m :: Visited(a, m) ==> m in b && b[m].route == a[m].route
    ensures n in b && Hops(a, n) == Hops(b, n) && PreviousChain(a, n, Hops(a, n)) == PreviousChain(b, n, Hops(a, n))
  {
    SameChain(a, b, n, Hops(a, n), g);
  }

  /** What a change of other fields, or of nodes that are new, leaves as it was. */
  ghost predicate SameRouting(a: GraphView, b: GraphView) {
    && b.myself == a.myself && b.edges == a.edges && b.mst == a.mst && a.nodes.Keys <= b.nodes.Keys
    && (forall n :: n in a.nodes ==>
          SameForSearch(a.myself, n, a.nodes[n], b.nodes[n])
            && a.nodes[n].status.reachable == b.nodes[n].status.reachable)
    && (forall n :: n in b.nodes && n !in a.nodes ==> !b.nodes[n].status.reachable && !b.nodes[n].status.visited)
  }

  lemma SameRoutingKeepsUpToDate(a: GraphView, b: GraphView)
    requires UpToDate(a) && b.Valid() && SameRouting(a, b)
    ensures UpToDate(b)
  {
    var found :| FoundBy(a, found);
    var again := SearchTerminates(b.Searched(), b.nodes);
    SameNames(a, b);
    FoundAgain(a, b, found, again);
    hide SearchEnds, Kruskal, NodesAgree, IsReachableSet, ReachableNames, EdgesWithin, SameForSearch;
    assert forall n :: n in b.nodes ==> b.nodes[n].status.reachable == b.nodes[n].status.visited;
    assert FoundBy(b, again);
  }

  lemma SameNames(a: GraphView, b: GraphView)
    requires SameRouting(a, b)
    ensures ReachableNames(a.nodes) == ReachableNames(b.nodes)
    ensures (forall n :: n in a.nodes ==> a.nodes[n].status.reachable == a.nodes[n].status.visited)
        ==> (forall n :: n in b.nodes ==> b.nodes[n].status.reachable == b.nodes[n].status.visited)
  {
  }

  lemma FoundAgain(a: GraphView, b: GraphView, found: Nodes, again: Nodes)
    requires a.Valid() && b.Valid() && SameRouting(a, b) && FoundBy(a, found)
             && SearchEnds(b.Searched(), b.nodes, again)
    ensures NodesAgree(a.myself, ReachableNames(a.nodes), again, b.nodes)
  {
    var g, r := a.Searched(), ReachableNames(a.nodes);
    ReachableIsComponent(g, r);
    LinksAgreeWithSelf(g, r);
    hide SearchEnds, LinksAgree, IsReachableSet, Component, EdgesWithin;
    assert WellKeyed(g.edges) by { AreWellKeyed(a); }
    SearchesAgree(g, g, r, a.nodes, b.nodes, found, again);
    forall n | n in r ensures n in again && n in b.nodes && SameForSearch(a.myself, n, again[n], b.nodes[n]) {
      assert SameForSearch(a.myself, n, found[n], again[n]) && SameForSearch(a.myself, n, found[n], a.nodes[n]);
    }
  }

  lemma AreWellKeyed(v: GraphView)
    requires v.Valid()
    ensures WellKeyed(v.edges)
  {
  }
}
