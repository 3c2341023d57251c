/** Purging unreachable nodes never disturbs the reachable part of the mesh, and purging twice is purging once. */
module Purge {
  import opened Names
  import opened Topology
  import opened Subnets
  import opened Routes
  import opened Prim
  import opened Progress
  import opened Agreement
  import opened Graph
  import opened Recompute
  import opened State

  /** Walks from this node cannot tell two graphs apart that hold the same links among the nodes of `r`. */
  lemma {:induction false} WalkAgrees(g: Mesh, h: Mesh, r: set<Name>, p: seq<Name>, n: Name)
    requires g.myself == h.myself && g.myself in r && LinksAgree(r, g.edges, h.edges) && WalkTo(h, p, n)
    ensures n in r && WalkTo(g, p, n)
    decreases |p|
  {
    if |p| <= 1 {
    } else {
      assert WalkTo(h, p[..|p| - 1], p[|p| - 2]);
      WalkAgrees(g, h, r, p[..|p| - 1], p[|p| - 2]);
      assert LastStep(p) == EdgeKey(p[|p| - 2], n);
    }
  }

  lemma SameReachableSet(g: Mesh, h: Mesh, r: set<Name>)
    requires g.myself == h.myself && IsReachableSet(g, r) && LinksAgree(r, g.edges, h.edges)
             && LinksAgree(r, h.edges, g.edges)
    ensures IsReachableSet(h, r)
  {
    assert WalkTo(g, [g.myself], g.myself);
    forall n ensures n in r <==> Reachable(h, n) {
      if n in r {
        var p :| WalkTo(g, p, n);
        WalkAgrees(h, g, r, p, n);
      }
      if Reachable(h, n) {
        var p :| WalkTo(h, p, n);
        WalkAgrees(g, h, r, p, n);
      }
    }
  }

  lemma SameEdgesAgree(r: set<Name>, a: Edges, b: Edges)
    requires SameEdgesFrom(r, a, b)
    ensures LinksAgree(r, a, b) && LinksAgree(r, b, a)
  {
    forall u, v | u in r
      ensures TwoWay(a, EdgeKey(u, v)) <==> TwoWay(b, EdgeKey(u, v))
      ensures TwoWay(a, EdgeKey(u, v)) ==> v in r && a[EdgeKey(u, v)] == b[EdgeKey(u, v)]
    {
      assert EdgeKey(u, v).Reverse() == EdgeKey(v, u);
    }
  }

  lemma LinksStayInside(g: Mesh, r: set<Name>)
    requires IsReachableSet(g, r)
    ensures g.myself in r && forall k: EdgeKey :: k.from in r && TwoWay(g.edges, k) ==> k.to in r
  {
    assert WalkTo(g, [g.myself], g.myself);
    forall k: EdgeKey | k.from in r && TwoWay(g.edges, k) ensures k.to in r {
      assert EdgeKey(k.from, k.to) == k;
      ReachableExtends(g, k.from, k.to);
    }
  }

  /** A purge removes no edge that starts at a reachable node. */
  lemma PurgeKeepsEdges(a: GraphView, names: seq<Name>)
    requires a.Valid() && IsReachableSet(a.Searched(), ReachableNames(a.nodes)) && names == UnreachableNames(a)
    ensures SameEdgesFrom(ReachableNames(a.nodes), a.edges, EdgesWithout(a.edges, names))
  {
    UnreachableAre(a);
    hide UnreachableNames, IsReachableSet;
    LinksStayInside(a.Searched(), ReachableNames(a.nodes));
  }

  lemma PurgedGraphIsValid(a: NetView, options: PurgeOptions, mst: set<EdgeKey>)
    requires a.graph.Valid()
    ensures var p := PurgedGraph(a, options, mst);
            && p.Valid() && p.myself == a.graph.myself
            && p.edges == EdgesWithout(a.graph.edges, UnreachableNames(a.graph))
            && (forall n :: n in p.nodes ==> n in a.graph.nodes && p.nodes[n] == a.graph.nodes[n])
            && (forall n :: n in a.graph.nodes && (a.graph.nodes[n].status.reachable || n == p.myself) ==> n in p.nodes)
  {
    UnreachableAre(a.graph);
    hide UnreachableNames, Claims, Disowned;
  }

  lemma SameReachableNames(a: Nodes, b: Nodes)
    requires forall n :: n in b ==> n in a && b[n] == a[n]
    requires forall n :: n in a && a[n].status.reachable ==> n in b
    ensures ReachableNames(a) == ReachableNames(b)
  {
  }

  /** When every node's reachable flag already says what the search finds, reconciling changes nothing. */
  lemma NothingToReconcile(searched: Nodes, experimental: bool, now: int)
    requires forall n :: n in searched ==> searched[n].status.visited == searched[n].status.reachable
    ensures ReconcileAll(searched, experimental, now) == searched
    ensures ChangesOf(searched) == ReachabilityChanges([], [])
  {
    NoChanges(searched, SortNames(searched.Keys), true);
    NoChanges(searched, SortNames(searched.Keys), false);
  }

  lemma {:induction false} NoChanges(nodes: Nodes, names: seq<Name>, reachable: bool)
    requires forall n :: n in nodes ==> nodes[n].status.visited == nodes[n].status.reachable
    ensures ChangesTo(nodes, names, reachable) == []
  {
    if names == [] {
    } else {
      NoChanges(nodes, names[..|names| - 1], reachable);
    }
  }

  /** Searching a graph `p` that kept the nodes and links around an up-to-date graph `a` finds what `a` already
      holds. */
  lemma SearchFindsTheSame(a: GraphView, p: GraphView, searched: Nodes)
    requires UpToDate(a) && p.Valid() && p.myself == a.myself
    requires forall n :: n in p.nodes ==> n in a.nodes && p.nodes[n] == a.nodes[n]
    requires ReachableNames(p.nodes) == ReachableNames(a.nodes)
    requires SameEdgesFrom(ReachableNames(a.nodes), a.edges, p.edges)
    requires SearchEnds(p.Searched(), p.nodes, searched)
    ensures searched.Keys == p.nodes.Keys
    ensures forall n :: n in p.nodes ==>
              searched[n] == if n in ReachableNames(a.nodes) then a.nodes[n] else Reset(p.nodes[n])
    ensures IsReachableSet(p.Searched(), ReachableNames(a.nodes))
  {
    var r := ReachableNames(a.nodes);
    var found :| FoundBy(a, found);
    SameEdgesAgree(r, a.edges, p.edges);
    SameReachableSet(a.Searched(), p.Searched(), r);
    ReachableIsComponent(a.Searched(), r);
    KeysAreWell(a, p);
    hide SearchEnds, Kruskal, EdgesWithin, LinksAgree, SameEdgesFrom, Component, IsReachableSet, Untouched, NodesAgree,
      WellKeyed;
    SearchesAgree(a.Searched(), p.Searched(), r, a.nodes, p.nodes, found, searched);
    SearchIsUntouched(p.Searched(), p.nodes, searched);
    VisitedIsReachable(p, searched, r);
    NodesAreFound(a, p, r, found, searched);
  }

  lemma NodesAreFound(a: GraphView, p: GraphView, r: set<Name>, found: Nodes, searched: Nodes)
    requires forall n :: n in p.nodes ==> n in a.nodes && p.nodes[n] == a.nodes[n]
    requires NodesAgree(a.myself, r, found, a.nodes) && NodesAgree(a.myself, r, found, searched)
    requires Untouched(p.Searched(), p.nodes, searched) && p.myself == a.myself
    requires forall n :: Visited(searched, n) <==> n in r
    ensures searched.Keys == p.nodes.Keys
    ensures forall n :: n in p.nodes ==> searched[n] == if n in r then a.nodes[n] else Reset(p.nodes[n])
  {
    hide Reset;
    forall n | n in p.nodes ensures searched[n] == if n in r then a.nodes[n] else Reset(p.nodes[n]) {
      if n in r {
        assert SameForSearch(a.myself, n, found[n], a.nodes[n]);
        assert SameForSearch(a.myself, n, found[n], searched[n]);
      }
    }
  }

  lemma KeysAreWell(a: GraphView, p: GraphView)
    requires a.Valid() && p.Valid()
    ensures WellKeyed(a.edges) && WellKeyed(p.edges)
  {
  }

  lemma VisitedIsReachable(p: GraphView, searched: Nodes, r: set<Name>)
    requires p.Valid() && SearchEnds(p.Searched(), p.nodes, searched) && IsReachableSet(p.Searched(), r)
    ensures forall n :: Visited(searched, n) <==> n in r
  {
    SearchIsSound(p.Searched(), p.nodes, searched);
  }

  lemma MyselfIsReachable(a: GraphView)
    requires UpToDate(a)
    ensures IsReachableSet(a.Searched(), ReachableNames(a.nodes)) && a.nodes[a.myself].status.reachable
  {
    var found :| FoundBy(a, found);
    hide SearchEnds, Kruskal;
    assert WalkTo(a.Searched(), [a.myself], a.myself);
    assert a.myself in ReachableNames(a.nodes);
  }

  ghost predicate FlagsMatchSearch(nodes: Nodes) {
    forall n :: n in nodes ==> nodes[n].status.visited == nodes[n].status.reachable
  }

  /** Reachable nodes as before, the others with their routes forgotten. */
  ghost predicate Refreshed(a: GraphView, p: GraphView, nodes: Nodes) {
    && nodes.Keys == p.nodes.Keys
    && forall n :: n in p.nodes ==>
         nodes[n] == if n in ReachableNames(a.nodes) then a.nodes[n] else Reset(p.nodes[n])
  }

  lemma RefreshedFlags(a: GraphView, p: GraphView, nodes: Nodes)
    requires UpToDate(a) && Refreshed(a, p, nodes)
    requires forall n :: n in p.nodes ==> n in a.nodes && p.nodes[n] == a.nodes[n]
    requires ReachableNames(p.nodes) == ReachableNames(a.nodes)
    ensures FlagsMatchSearch(nodes) && ReachableNames(nodes) == ReachableNames(a.nodes)
  {
    var found :| FoundBy(a, found);
    hide SearchEnds, Kruskal, IsReachableSet, NodesAgree;
    assert forall n :: n in ReachableNames(p.nodes) ==> n in p.nodes;
  }

  lemma PurgedThrough(a: NetView, b: NetView, options: PurgeOptions, changes: ReachabilityChanges, now: int)
    returns (mst: set<EdgeKey>)
    requires a.graph.Valid() && Purged(a, b, options, changes, now)
    ensures var p := PurgedGraph(a, options, mst);
            p.Valid() && p.myself == a.graph.myself && RecomputedReporting(p, b.graph, changes, a.experimental, now)
  {
    hide RecomputedReporting;
    mst :| RecomputedReporting(PurgedGraph(a, options, mst), b.graph, changes, a.experimental, now);
    PurgedGraphIsValid(a, options, mst);
  }

  /** What a purge of an up-to-date state leaves behind. */
  lemma PurgeOutcome(a: NetView, b: NetView, p: GraphView, options: PurgeOptions, mst: set<EdgeKey>,
      changes: ReachabilityChanges, now: int)
    requires UpToDate(a.graph) && p == PurgedGraph(a, options, mst)
    requires p.myself in p.nodes && RecomputedReporting(p, b.graph, changes, a.experimental, now)
    ensures Refreshed(a.graph, p, b.graph.nodes)
    ensures ReachableNames(b.graph.nodes) == ReachableNames(a.graph.nodes)
    ensures b.graph.edges == p.edges && b.graph.mst == a.graph.mst && b.graph.myself == p.myself
    ensures changes == ReachabilityChanges([], [])
  {
    ValidWhenUpToDate(a.graph);
    hide SearchEnds, Kruskal, SameEdgesFrom, IsReachableSet, PurgedGraph, ReconcileAll, ChangesOf, ReachableNames,
      Refreshed, UpToDate, EdgesWithout, UnreachableNames;
    PurgedGraphIsValid(a, options, mst);
    SameReachableNames(a.graph.nodes, p.nodes);
    MyselfIsReachable(a.graph);
    PurgeKeepsEdges(a.graph, UnreachableNames(a.graph));
    var searched :| RecomputedThrough(p, b.graph, searched, a.experimental, now) && changes == ChangesOf(searched);
    OutcomeThrough(a.graph, p, b.graph, searched, changes, a.experimental, now);
  }

  lemma OutcomeThrough(a: GraphView, p: GraphView, b: GraphView, searched: Nodes, changes: ReachabilityChanges,
      experimental: bool, now: int)
    requires UpToDate(a) && p.Valid() && p.myself == a.myself
    requires forall n :: n in p.nodes ==> n in a.nodes && p.nodes[n] == a.nodes[n]
    requires ReachableNames(p.nodes) == ReachableNames(a.nodes)
    requires SameEdgesFrom(ReachableNames(a.nodes), a.edges, p.edges)
    requires RecomputedThrough(p, b, searched, experimental, now) && changes == ChangesOf(searched)
    ensures Refreshed(a, p, b.nodes) && ReachableNames(b.nodes) == ReachableNames(a.nodes)
    ensures b.edges == p.edges && b.mst == a.mst && b.myself == p.myself && changes == ReachabilityChanges([], [])
  {
    ValidWhenUpToDate(a);
    KeysAreWell(a, p);
    hide SearchEnds, Kruskal, SameEdgesFrom, ReconcileAll, ChangesOf, ReachableNames, Refreshed, FlagsMatchSearch,
      EdgesWithin, WellKeyed;
    SearchFindsTheSame(a, p, searched);
    IntroduceRefreshed(a, p, searched);
    RefreshedFlags(a, p, searched);
    FlagsMeanNothingToReconcile(searched, experimental, now);
    KruskalAgrees(a.edges, p.edges, ReachableNames(a.nodes));
  }

  lemma IntroduceRefreshed(a: GraphView, p: GraphView, nodes: Nodes)
    requires nodes.Keys == p.nodes.Keys
    requires forall n :: n in p.nodes ==>
               nodes[n] == if n in ReachableNames(a.nodes) then a.nodes[n] else Reset(p.nodes[n])
    ensures Refreshed(a, p, nodes)
  {
  }

  lemma FlagsMeanNothingToReconcile(nodes: Nodes, experimental: bool, now: int)
    requires FlagsMatchSearch(nodes)
    ensures ReconcileAll(nodes, experimental, now) == nodes && ChangesOf(nodes) == ReachabilityChanges([], [])
  {
    NothingToReconcile(nodes, experimental, now);
  }

  /** A purge leaves every reachable node exactly as it was, route and all, keeps the broadcast tree, and reports that
      no node's reachability changed. */
  lemma PurgeKeepsReachable(a: NetView, b: NetView, options: PurgeOptions, changes: ReachabilityChanges, now: int)
    requires UpToDate(a.graph) && Purged(a, b, options, changes, now)
    ensures ReachableNames(b.graph.nodes) == ReachableNames(a.graph.nodes)
    ensures forall n :: n in ReachableNames(a.graph.nodes) ==>
              n in b.graph.nodes && b.graph.nodes[n] == a.graph.nodes[n]
    ensures b.graph.mst == a.graph.mst
    ensures changes == ReachabilityChanges([], [])
  {
    hide RecomputedReporting, Kruskal, PurgedGraph;
    var mst := PurgedThrough(a, b, options, changes, now);
    PurgeOutcome(a, b, PurgedGraph(a, options, mst), options, mst, changes, now);
    assert forall n :: n in ReachableNames(b.graph.nodes) ==> n in b.graph.nodes;
  }

  /** Exactly which unreachable nodes survive: with lax subnets and no automatic connections, those that some reachable
      node still has a one-way edge to. */
  lemma PurgeKeepsOnlyReferenced(a: NetView, b: NetView, options: PurgeOptions, changes: ReachabilityChanges, now: int,
      n: Name)
    requires UpToDate(a.graph) && Purged(a, b, options, changes, now)
    requires !options.strictSubnets && !options.autoconnect
    requires n in a.graph.nodes && n !in ReachableNames(a.graph.nodes)
    ensures n in b.graph.nodes <==> exists u :: u in ReachableNames(a.graph.nodes) && EdgeKey(u, n) in a.graph.edges
  {
    hide RecomputedReporting, Kruskal, UnreachableNames, PurgedSubnets;
    var mst := PurgedThrough(a, b, options, changes, now);
    PurgeOutcome(a, b, PurgedGraph(a, options, mst), options, mst, changes, now);
    UnreachableAre(a.graph);
    MyselfIsReachable(a.graph);
    ReferencedMeans(a.graph, n);
  }

  /** A second purge with the same options finds nothing left to do. */
  lemma PurgeIsIdempotent(a: NetView, b: NetView, c: NetView, options: PurgeOptions, changes: ReachabilityChanges,
      again: ReachabilityChanges, now: int, later: int)
    requires UpToDate(a.graph) && Purged(a, b, options, changes, now) && b.graph.Valid()
    requires Purged(b, c, options, again, later)
    ensures c == b && again == ReachabilityChanges([], [])
  {
    ValidWhenUpToDate(a.graph);
    hide RecomputedReporting, Kruskal, PurgedGraph, UpToDate;
    var m := PurgedThrough(a, b, options, changes, now);
    var p := PurgedGraph(a, options, m);
    PurgeOutcome(a, b, p, options, m, changes, now);
    ReportingIsRecomputed(p, b.graph, changes, a.experimental, now);
    RecomputedIsUpToDate(p, b.graph, a.experimental, now);
    var n := PurgedThrough(b, c, options, again, later);
    var q := PurgedGraph(b, options, n);
    PurgeOutcome(b, c, q, options, n, again, later);
    SecondPurgeRemovesNothing(a, b, p, options, m, n);
    RefreshedTwice(a.graph, b.graph, p, q, c.graph.nodes);
  }

  lemma ValidWhenUpToDate(a: GraphView)
    requires UpToDate(a)
    ensures a.Valid()
  {
  }

  lemma RefreshedTwice(a: GraphView, b: GraphView, p: GraphView, q: GraphView, nodes: Nodes)
    requires Refreshed(a, p, b.nodes) && Refreshed(b, q, nodes) && q.nodes == b.nodes
    requires ReachableNames(b.nodes) == ReachableNames(a.nodes)
    ensures nodes == b.nodes
  {
  }

  lemma SecondPurgeRemovesNothing(a: NetView, b: NetView, p: GraphView, options: PurgeOptions, m: set<EdgeKey>,
      n: set<EdgeKey>)
    requires a.graph.Valid() && p == PurgedGraph(a, options, m)
    requires b.subnets == PurgedSubnets(a, options) && b.graph.edges == p.edges && b.graph.nodes.Keys == p.nodes.Keys
    requires b.graph.myself == a.graph.myself
    requires ReachableNames(b.graph.nodes) == ReachableNames(a.graph.nodes)
    ensures PurgedSubnets(b, options) == b.subnets
    ensures PurgedGraph(b, options, n).nodes == b.graph.nodes && PurgedGraph(b, options, n).edges == b.graph.edges
  {
    var names, again := UnreachableNames(a.graph), UnreachableNames(b.graph);
    UnreachableAre(a.graph);
    UnreachableAre(b.graph);
    hide UnreachableNames;
    forall x | x in again ensures x in names {
      assert x !in ReachableNames(b.graph.nodes) && x in p.nodes;
    }
    assert EdgesWithout(b.graph.edges, again) == b.graph.edges;
    if !options.strictSubnets {
      DisownedAre(a.subnets, names);
      DisownNothing(b.subnets, again);
    }
  }

  lemma {:induction false} DisownedAre(s: seq<Subnet>, names: seq<Name>)
    ensures forall x, n :: x in Disowned(s, names) && n in names ==> !OwnedBy(x, n)
    ensures forall x :: x in Disowned(s, names) ==> x in s
  {
    if names == [] {
    } else {
      DisownedAre(s, names[..|names| - 1]);
      assert names == names[..|names| - 1] + [names[|names| - 1]];
    }
  }

  lemma {:induction false} DisownNothing(s: seq<Subnet>, names: seq<Name>)
    requires forall x, n :: x in s && n in names ==> !OwnedBy(x, n)
    ensures Disowned(s, names) == s
  {
    if names == [] {
    } else {
      DisownNothing(s, names[..|names| - 1]);
      SelectEverything(s, names[|names| - 1]);
    }
  }

  lemma {:induction false} SelectEverything(s: seq<Subnet>, owner: Name)
    requires forall x :: x in s ==> !OwnedBy(x, owner)
    ensures Select(s, owner, false) == s
  {
    hide OwnedBy;
    if s == [] {
    } else {
      var t, last := s[..|s| - 1], s[|s| - 1];
      assert last in s && forall x :: x in t ==> x in s;
      assert s == t + [last] && !OwnedBy(last, owner);
      SelectEverything(t, owner);
      assert Select(s, owner, false) == Select(t, owner, false) + [last];
    }
  }

  lemma ReferencedMeans(g: GraphView, n: Name)
    requires UpToDate(g)
    ensures var edges := EdgesWithout(g.edges, UnreachableNames(g));
            (exists k :: k in edges && k.to == n) <==>
            exists u :: u in ReachableNames(g.nodes) && EdgeKey(u, n) in g.edges
  {
    var edges := EdgesWithout(g.edges, UnreachableNames(g));
    UnreachableAre(g);
    var found :| FoundBy(g, found);
    assert g.myself in ReachableNames(g.nodes) by { assert WalkTo(g.Searched(), [g.myself], g.myself); }
    hide UnreachableNames, SearchEnds, Kruskal;
    if k :| k in edges && k.to == n {
      assert EdgeKey(k.from, n) == k && k.from in g.nodes;
    }
    if u :| u in ReachableNames(g.nodes) && EdgeKey(u, n) in g.edges {
      assert EdgeKey(u, n) in edges;
    }
  }
}
