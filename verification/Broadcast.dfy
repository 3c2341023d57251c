/** Broadcasting a packet along the minimum spanning tree, hop by hop, until every node has it. */
module Broadcast {
  import opened Basics
  import opened Names
  import opened Order
  import opened Topology
  import opened Trees
  import opened Prim
  import opened Routes
  import opened Graph
  import opened Recompute

  datatype BroadcastMode = NoBroadcast | Direct | Mst

  function NextHopOf(v: GraphView, name: Name): Option<Name> {
    if name in v.nodes then v.nodes[name].route.nextHop else None
  }

  function MstNeighbors(v: GraphView, name: Name): seq<Name> {
    SortNames(set k | k in v.mst && k.from == name :: k.to)
  }

  /** A reachable tree neighbour, not the one the packet came through; when only direct links may be used, one that is
      its own next hop. */
  predicate IsTreeTarget(v: GraphView, source: Name, directOnly: bool, target: Name) {
    && EdgeKey(v.myself, target) in v.mst
    && Some(target) != NextHopOf(v, source)
    && target in v.nodes && v.nodes[target].status.reachable
    && (!directOnly || NextHopOf(v, target) == Some(v.nodes[target].name))
  }

  predicate IsDirectTarget(v: GraphView, source: Name, target: Name) {
    && target in v.nodes && v.nodes[target].status.reachable
    && v.nodes[target].name != v.myself && v.nodes[target].name != source
    && NextHopOf(v, target) == Some(v.nodes[target].name)
  }

  predicate IsTarget(v: GraphView, source: Name, mode: BroadcastMode, directOnly: bool, target: Name) {
    match mode
    case NoBroadcast => false
    case Direct => IsDirectTarget(v, source, target)
    case Mst => IsTreeTarget(v, source, directOnly, target)
  }

  /** The nodes a packet is passed on to, in the order of their names. */
  method BroadcastTargets(v: GraphView, source: Name, mode: BroadcastMode, directOnly: bool)
    returns (targets: seq<Name>)
    requires v.Valid()
    ensures forall t :: t in targets <==> IsTarget(v, source, mode, directOnly, t)
    ensures Ascending(targets, NameLess)
  {
    hide NameLess, Ascending;
    targets := [];
    NoNames();
    var candidates := Candidates(v, mode);
    CandidatesCover(v, source, mode, directOnly);
    var sourceNextHop := NextHopOf(v, source);
    for i := 0 to |candidates|
      invariant forall t :: t in targets ==> t in candidates[..i] && IsTarget(v, source, mode, directOnly, t)
      invariant forall t :: t in candidates[..i] && IsTarget(v, source, mode, directOnly, t) ==> t in targets
      invariant Ascending(targets, NameLess)
    {
      var t := candidates[i];
      assert candidates[..i + 1] == candidates[..i] + [t];
      LaterName(candidates, i, targets);
      if mode == Mst {
        if Some(t) != sourceNextHop && t in v.nodes && v.nodes[t].status.reachable
           && (!directOnly || v.nodes[t].route.nextHop == Some(v.nodes[t].name)) {
          targets := targets + [t];
        }
      } else if v.nodes[t].name != v.myself && v.nodes[t].name != source && v.nodes[t].status.reachable {
        if mode == Direct && v.nodes[t].route.nextHop == Some(v.nodes[t].name) {
          targets := targets + [t];
        }
      }
    }
    assert candidates[..|candidates|] == candidates;
  }

  function Candidates(v: GraphView, mode: BroadcastMode): seq<Name> {
    if mode == Mst then MstNeighbors(v, v.myself) else SortNames(v.nodes.Keys)
  }

  lemma CandidatesCover(v: GraphView, source: Name, mode: BroadcastMode, directOnly: bool)
    ensures Ascending(Candidates(v, mode), NameLess)
    ensures forall t :: IsTarget(v, source, mode, directOnly, t) ==> t in Candidates(v, mode)
    ensures forall t :: t in Candidates(v, mode) ==> if mode == Mst then EdgeKey(v.myself, t) in v.mst else t in v.nodes
  {
    hide NameLess, Ascending;
    assert forall k :: k in v.mst && k.from == v.myself ==> EdgeKey(v.myself, k.to) == k;
  }

  /** Handles one broadcast packet: whether it is written to the device, which nodes it is offered to, in that order and
      whether or not an earlier send failed, and which sends succeeded. */
  method BroadcastPacket(v: GraphView, source: Name, mode: BroadcastMode, directOnly: bool, sends: Name -> bool)
    returns (written: bool, tried: seq<Name>, sent: seq<Name>)
    requires v.Valid()
    ensures written == (source != v.myself)
    ensures forall t :: t in tried <==>
              IsTarget(v, source, mode, directOnly, t) && (source == v.myself || (mode == Mst && !directOnly))
    ensures forall t :: t in sent <==> t in tried && sends(t)
    ensures Ascending(tried, NameLess) && Ascending(sent, NameLess)
  {
    hide NameLess, Ascending;
    NoNames();
    tried, sent := [], [];
    written := source != v.myself;
    if mode == NoBroadcast {
      return;
    }
    if source != v.myself && (mode == Direct || directOnly) {
      return;
    }
    var targets := BroadcastTargets(v, source, mode, directOnly);
    for i := 0 to |targets|
      invariant tried == targets[..i]
      invariant forall t :: t in sent <==> t in targets[..i] && sends(t)
      invariant Ascending(sent, NameLess)
    {
      assert targets[..i + 1] == targets[..i] + [targets[i]];
      LaterName(targets, i, sent);
      tried := tried + [targets[i]];
      if sends(targets[i]) {
        sent := sent + [targets[i]];
      }
    }
    assert targets[..|targets|] == targets;
  }

  // One broadcast through the whole mesh

  /** Packets on their way, each on the link it travels, and how often each node's device has been written. */
  datatype Flood = Flood(flying: multiset<EdgeKey>, written: multiset<Name>)

  /** Every member of the component `r` holds the same edges and up-to-date routes and tree; no edge is indirect. */
  ghost predicate Consistent(views: map<Name, GraphView>, edges: Edges, r: set<Name>) {
    && views.Keys == r && NoIndirect(edges)
    && forall n :: n in r ==> views[n].myself == n && views[n].edges == edges && UpToDate(views[n])
  }

  /** The links over which `n` passes on a packet that reached it from `source`. */
  ghost function Forwards(v: GraphView, source: Name): set<EdgeKey> {
    set t | t in v.nodes && IsTarget(v, source, Mst, false, t) :: EdgeKey(v.myself, t)
  }

  ghost function Launch(views: map<Name, GraphView>, origin: Name): Flood
    requires origin in views
  {
    Flood(multiset(Forwards(views[origin], origin)), multiset{})
  }

  /** The packet travelling over `k` arrives: it is written to the device and passed on. */
  ghost function Arrive(views: map<Name, GraphView>, f: Flood, k: EdgeKey): Flood
    requires k.to in views
  {
    Flood(f.flying - multiset{k} + multiset(Forwards(views[k.to], k.from)), f.written + multiset{k.to})
  }

  /** A run delivers packets that are flying, in any order. */
  ghost predicate IsRun(views: map<Name, GraphView>, f: Flood, run: seq<EdgeKey>, g: Flood)
    decreases |run|
  {
    if run == [] then f == g
    else run[0] in f.flying && run[0].to in views && IsRun(views, Arrive(views, f, run[0]), run[1..], g)
  }

  /** All members of a component compute the same tree, and it spans the component. */
  lemma SameTree(v: GraphView, edges: Edges, r: set<Name>)
    requires UpToDate(v) && v.edges == edges && Component(edges, r) && v.myself in r
    ensures v.mst == Kruskal(edges, r) && MinimumSpanningTree(edges, r, v.mst)
    ensures ReachableNames(v.nodes) == r && v.Valid()
  {
    hide UpToDate, MinimumSpanningTree, Component, IsReachableSet, Kruskal, ReachableNames, NodeSound;
    UpToDateIsSound(v);
    ReachableIsComponent(v.Searched(), ReachableNames(v.nodes));
    ComponentIsUnique(edges, r, ReachableNames(v.nodes), v.myself);
  }

  /** A neighbour is its own next hop, because no best route to it is longer than the link itself. */
  lemma NeighbourIsNextHop(v: GraphView, edges: Edges, r: set<Name>, s: Name)
    requires UpToDate(v) && v.edges == edges && Component(edges, r) && v.myself in r && NoIndirect(edges) && s in r
    requires v.myself == s || TwoWay(edges, EdgeKey(v.myself, s))
    ensures NextHopOf(v, s) == Some(s)
  {
    hide UpToDate, MinimumSpanningTree, Component, Kruskal, NoIndirect, PreviousChain, Hops;
    SameTree(v, edges, r);
    UpToDateIsOptimal(v, s);
    ShortRoute(v.Searched(), PreviousChain(v.nodes, s, Hops(v.nodes, s)), s);
    assert s in ReachableNames(v.nodes);
  }

  lemma ShortRoute(g: Mesh, p: seq<Name>, s: Name)
    requires BestRoute(g, p, s)
    requires g.myself == s || TwoWay(g.edges, EdgeKey(g.myself, s))
    ensures |p| > 1 ==> p[1] == s
  {
    assert WalkTo(g, [g.myself], g.myself);
    if g.myself != s {
      WalkExtends(g, [g.myself], g.myself, s);
      assert |p| <= |[g.myself] + [s]|;
    } else {
      assert |p| <= |[g.myself]|;
    }
  }

  /** What the flood needs of the nodes: one spanning tree, and routes on which tree neighbours are their own next
      hops. */
  ghost predicate Prepared(views: map<Name, GraphView>, t: set<EdgeKey>, r: set<Name>) {
    && views.Keys == r && SpanningTree(t, r)
    && (forall n :: n in r ==> views[n].myself == n && views[n].mst == t && ReachableNames(views[n].nodes) == r)
    && (forall n, s :: n in r && (s == n || EdgeKey(n, s) in t) ==> NextHopOf(views[n], s) == Some(s))
  }

  lemma ConsistentIsPrepared(views: map<Name, GraphView>, edges: Edges, r: set<Name>)
    requires Consistent(views, edges, r) && Component(edges, r) && r != {}
    ensures Prepared(views, Kruskal(edges, r), r)
  {
    hide UpToDate, Component, Kruskal, NoIndirect, ReachableNames;
    var t := Kruskal(edges, r);
    forall n | n in r ensures views[n].mst == t && ReachableNames(views[n].nodes) == r
      && MinimumSpanningTree(edges, r, t) {
      SameTree(views[n], edges, r);
    }
    var any :| any in r;
    assert MinimumSpanningTree(edges, r, t) by { assert views[any].mst == t; }
    forall n, s | n in r && (s == n || EdgeKey(n, s) in t) ensures NextHopOf(views[n], s) == Some(s) {
      assert EdgeKey(n, s) in t ==> EdgeKey(n, s) in Links(edges);
      NeighbourIsNextHop(views[n], edges, r, s);
    }
  }

  lemma TreeHasNoLoops(t: set<EdgeKey>, r: set<Name>, n: Name)
    requires SpanningTree(t, r)
    ensures EdgeKey(n, n) !in t
  {
    if n in r {
      TreePartIsForest(t, r, {n});
      assert Inside(t, {n}) == {};
      assert EdgeKey(n, n) in t ==> EdgeKey(n, n) in Inside(t, {n});
    }
  }

  /** A node passes a packet on to exactly its tree neighbours other than the one it came from. */
  lemma ForwardsAre(views: map<Name, GraphView>, t: set<EdgeKey>, r: set<Name>, n: Name, source: Name)
    requires Prepared(views, t, r) && n in r && (source == n || EdgeKey(n, source) in t)
    ensures Forwards(views[n], source) == set k | k in t && k.from == n && k.to != source
  {
    hide SpanningTree;
    var v := views[n];
    TreeHasNoLoops(t, r, n);
    assert Within(t, r) by { TreeIsWithin(t, r); }
    forall k | k in t && k.from == n && k.to != source ensures k in Forwards(v, source) {
      assert EdgeKey(n, k.to) == k && k.to in ReachableNames(v.nodes);
      assert IsTarget(v, source, Mst, false, k.to);
    }
  }

  lemma TreeIsWithin(t: set<EdgeKey>, r: set<Name>)
    requires SpanningTree(t, r)
    ensures Within(t, r) && Symmetric(t)
  {
  }

  /** The links that lead out of what has been reached. */
  ghost function Boundary(t: set<EdgeKey>, seen: set<Name>): set<EdgeKey> {
    set k | k in t && k.from in seen && k.to !in seen
  }

  /** While the flood runs: `seen` is the origin and the nodes written so far, each once; it is connected within the
      tree; and what is flying is exactly one packet on each tree link out of it. */
  ghost predicate Flooding(t: set<EdgeKey>, r: set<Name>, origin: Name, seen: set<Name>, f: Flood) {
    && origin in seen && seen <= r
    && |Inside(t, seen)| >= 2 * (|seen| - 1)
    && f.flying == multiset(Boundary(t, seen))
    && f.written == multiset(seen - {origin})
  }

  /** When a packet arrives at `b`, only its sender among the nodes seen so far is a tree neighbour of `b`. */
  lemma BoundaryMoves(t: set<EdgeKey>, r: set<Name>, seen: set<Name>, k: EdgeKey)
    requires SpanningTree(t, r) && seen <= r && |Inside(t, seen)| >= 2 * (|seen| - 1) && k in Boundary(t, seen)
    ensures Boundary(t, seen + {k.to}) == Boundary(t, seen) - {k} + set l | l in t && l.from == k.to && l.to != k.from
    ensures |Inside(t, seen + {k.to})| >= 2 * |seen|
    ensures Boundary(t, seen) - {k} !! set l | l in t && l.from == k.to && l.to != k.from
  {
    var b := k.to;
    assert k == EdgeKey(k.from, b);
    GrowInside(t, seen, b, {k.from});
    forall l | l in t && l.to == b && l.from in seen ensures l == k {
      assert l == EdgeKey(l.from, b);
      OneLinkIn(t, r, seen, b, l.from, k.from);
    }
    forall l | l in t && l.from == b && l.to in seen ensures l.to == k.from {
      assert l.Reverse() in t;
      assert l.Reverse() == EdgeKey(l.to, b);
    }
    assert EdgeKey(b, b) !in t by { TreeHasNoLoops(t, r, b); }
    forall l | l in t && l.from == b ensures l.to != b {
      assert l == EdgeKey(b, l.to);
    }
  }

  lemma ReplaceOne(b: set<EdgeKey>, k: EdgeKey, more: set<EdgeKey>)
    requires k in b && (b - {k}) !! more
    ensures multiset(b) - multiset{k} + multiset(more) == multiset(b - {k} + more)
  {
  }

  lemma ArriveKeepsFlooding(views: map<Name, GraphView>, t: set<EdgeKey>, r: set<Name>, origin: Name, seen: set<Name>,
      f: Flood, k: EdgeKey)
    requires Prepared(views, t, r) && Flooding(t, r, origin, seen, f) && k in f.flying
    ensures k.to in r && k.to !in seen
    ensures Flooding(t, r, origin, seen + {k.to}, Arrive(views, f, k))
  {
    hide Prepared, Forwards, SpanningTree;
    assert k in Boundary(t, seen);
    PreparedSpans(views, t, r);
    TreeIsWithin(t, r);
    assert k.Reverse() in t && k.Reverse() == EdgeKey(k.to, k.from);
    ForwardsAre(views, t, r, k.to, k.from);
    BoundaryMoves(t, r, seen, k);
    var more := Forwards(views[k.to], k.from);
    hide Boundary, Inside;
    ReplaceOne(Boundary(t, seen), k, more);
    assert (seen + {k.to}) - {origin} == seen - {origin} + {k.to};
  }

  lemma PreparedSpans(views: map<Name, GraphView>, t: set<EdgeKey>, r: set<Name>)
    requires Prepared(views, t, r)
    ensures SpanningTree(t, r) && views.Keys == r
  {
  }

  lemma LaunchFloods(views: map<Name, GraphView>, t: set<EdgeKey>, r: set<Name>, origin: Name)
    requires Prepared(views, t, r) && origin in r
    ensures origin in views && Flooding(t, r, origin, {origin}, Launch(views, origin))
  {
    hide Prepared, Forwards, SpanningTree;
    ForwardsAre(views, t, r, origin, origin);
    PreparedSpans(views, t, r);
    FirstBoundary(t, r, origin);
    hide Boundary, Inside;
    assert {origin} - {origin} == {};
  }

  lemma FirstBoundary(t: set<EdgeKey>, r: set<Name>, origin: Name)
    requires SpanningTree(t, r)
    ensures Boundary(t, {origin}) == set k | k in t && k.from == origin && k.to != origin
  {
    hide SpanningTree;
  }

  lemma {:induction false} RunKeepsFlooding(views: map<Name, GraphView>, t: set<EdgeKey>, r: set<Name>, origin: Name,
      seen: set<Name>, f: Flood, run: seq<EdgeKey>, g: Flood)
    returns (after: set<Name>)
    requires Prepared(views, t, r) && Flooding(t, r, origin, seen, f) && IsRun(views, f, run, g)
    ensures Flooding(t, r, origin, after, g) && |after| == |seen| + |run|
    decreases |run|
  {
    hide Flooding, Prepared, Arrive;
    after := seen;
    if run == [] {
    } else {
      ArriveKeepsFlooding(views, t, r, origin, seen, f, run[0]);
      after := RunKeepsFlooding(views, t, r, origin, seen + {run[0].to}, Arrive(views, f, run[0]), run[1..], g);
    }
  }

  /** Nothing is flying exactly when everything has been reached. */
  lemma FloodingEnds(t: set<EdgeKey>, r: set<Name>, origin: Name, seen: set<Name>, f: Flood)
    requires SpanningTree(t, r) && Flooding(t, r, origin, seen, f)
    ensures f.flying == multiset{} <==> seen == r
  {
    if seen < r {
      assert Bridged(t, seen);
      var k :| k in t && Crosses(k, seen);
      var l := if k.from in seen then k else k.Reverse();
      assert l in Boundary(t, seen);
      assert f.flying[l] == 1;
    } else {
      assert Boundary(t, seen) == {};
    }
  }

  lemma WrittenEnds(r: set<Name>, origin: Name, seen: set<Name>, written: multiset<Name>)
    requires origin in seen && seen <= r && written == multiset(seen - {origin})
    ensures written <= multiset(r - {origin}) && |seen| <= |r| && (|seen| == |r| <==> seen == r)
    ensures written == multiset(r - {origin}) <==> seen == r
  {
    SubsetCardinality(seen, r);
    if written == multiset(r - {origin}) {
      forall n | n in r ensures n in seen {
        if n != origin {
          assert n in multiset(r - {origin});
          assert n in multiset(seen - {origin});
        }
      }
    }
  }

  /** One broadcast, however its packets are delayed and interleaved, is written to no device twice and never to the
      origin's; it ends after one delivery per other node, and it ends exactly when every other node has been
      written. */
  lemma BroadcastReachesEveryNodeOnce(views: map<Name, GraphView>, edges: Edges, r: set<Name>, origin: Name,
      run: seq<EdgeKey>, f: Flood)
    requires Consistent(views, edges, r) && Component(edges, r) && origin in r
    requires IsRun(views, Launch(views, origin), run, f)
    ensures f.written <= multiset(r - {origin})
    ensures |run| <= |r| - 1
    ensures f.flying == multiset{} <==> f.written == multiset(r - {origin})
    ensures f.flying == multiset{} <==> |run| == |r| - 1
  {
    hide Consistent, Component, Kruskal, IsRun, Prepared, Launch, SpanningTree, Flooding;
    ConsistentIsPrepared(views, edges, r);
    var t := Kruskal(edges, r);
    PreparedSpans(views, t, r);
    LaunchFloods(views, t, r, origin);
    var seen := RunKeepsFlooding(views, t, r, origin, {origin}, Launch(views, origin), run, f);
    FloodingEnds(t, r, origin, seen, f);
    FloodingWritten(t, r, origin, seen, f);
    WrittenEnds(r, origin, seen, f.written);
  }

  lemma FloodingWritten(t: set<EdgeKey>, r: set<Name>, origin: Name, seen: set<Name>, f: Flood)
    requires Flooding(t, r, origin, seen, f)
    ensures origin in seen && seen <= r && f.written == multiset(seen - {origin})
  {
  }

  /** A packet that is flying can always be delivered, so no broadcast stops early. */
  lemma FlyingPacketsArrive(views: map<Name, GraphView>, edges: Edges, r: set<Name>, origin: Name,
      run: seq<EdgeKey>, f: Flood, k: EdgeKey)
    requires Consistent(views, edges, r) && Component(edges, r) && origin in r
    requires IsRun(views, Launch(views, origin), run, f) && k in f.flying
    ensures k.to in views && IsRun(views, Launch(views, origin), run + [k], Arrive(views, f, k))
  {
    hide Consistent, Component, Kruskal, Launch, SpanningTree, Prepared, Flooding, IsRun, Arrive;
    ConsistentIsPrepared(views, edges, r);
    var t := Kruskal(edges, r);
    PreparedSpans(views, t, r);
    LaunchFloods(views, t, r, origin);
    var seen := RunKeepsFlooding(views, t, r, origin, {origin}, Launch(views, origin), run, f);
    ArriveKeepsFlooding(views, t, r, origin, seen, f, k);
    RunExtends(views, Launch(views, origin), run, f, k);
  }

  lemma {:induction false} RunExtends(views: map<Name, GraphView>, f: Flood, run: seq<EdgeKey>, g: Flood, k: EdgeKey)
    requires IsRun(views, f, run, g) && k in g.flying && k.to in views
    ensures IsRun(views, f, run + [k], Arrive(views, g, k))
    decreases |run|
  {
    hide Arrive;
    if run == [] {
      assert [] + [k] == [k];
    } else {
      RunExtends(views, Arrive(views, f, run[0]), run[1..], g, k);
      assert (run + [k])[1..] == run[1..] + [k];
    }
  }
}
