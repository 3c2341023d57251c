/** The route search of `sssp_bfs` as a step function on nodes and queue, and what every run of it establishes. */
module Routes {
  import opened Basics
  import opened Names
  import opened Order
  import opened Topology

  /** The two parts of the graph the search only reads. */
  datatype Mesh = Mesh(myself: Name, edges: Edges)

  datatype SourceState = SourceState(indirect: bool, distance: nat, weightedDistance: nat, nextHop: Name, via: Name)

  datatype Search = Search(nodes: Nodes, queue: seq<Name>)

  function SourceOf(node: Node): Option<SourceState> {
    match node.route
    case RouteState(Some(distance), Some(weighted), Some(nextHop), _, Some(via)) =>
      Some(SourceState(node.status.indirect, distance, weighted, nextHop, via))
    case _ => None
  }

  predicate ShouldKeepExistingRoute(to: Node, indirect: bool, distance: nat, weighted: nat) {
    && to.status.visited
    && (!to.status.indirect || indirect)
    && (to.route.distance != Some(distance)
        || (to.route.weightedDistance.Some? && to.route.weightedDistance.value <= weighted))
  }

  predicate UpdatesNextHop(to: Node, distance: nat, weighted: nat) {
    || !to.status.visited
    || (to.route.distance == Some(distance)
        && to.route.weightedDistance.Some? && to.route.weightedDistance.value > weighted)
  }

  /** The node at the far end of `e` once the route over `e` has been accepted. */
  function Rerouted(myself: Name, src: SourceState, e: Edge, to: Node): Node {
    var indirect := src.indirect || e.Indirect();
    var weighted := src.weightedDistance + e.weight;
    var updates := UpdatesNextHop(to, src.distance + 1, weighted);
    var route := RouteState(
      Some(src.distance + 1),
      if updates then Some(weighted) else to.route.weightedDistance,
      if updates then Some(if src.nextHop == myself then e.to else src.nextHop) else to.route.nextHop,
      Some(e.Key()),
      Some(if indirect then src.via else e.to));
    to.(status := to.status.(visited := true, indirect := indirect), route := route, options := e.options)
  }

  predicate Skips(g: Mesh, src: SourceState, e: Edge, nodes: Nodes) {
    || e.to == g.myself || !TwoWay(g.edges, e.Key()) || e.to !in nodes
    || ShouldKeepExistingRoute(nodes[e.to], src.indirect || e.Indirect(), src.distance + 1,
                               src.weightedDistance + e.weight)
  }

  function RelaxEdge(g: Mesh, src: SourceState, e: Edge, s: Search): Search {
    if Skips(g, src, e, s.nodes) then s
    else Search(s.nodes[e.to := Rerouted(g.myself, src, e, s.nodes[e.to])], s.queue + [e.to])
  }

  function Targets(edges: Edges, name: Name): seq<Name> {
    SortNames(set k | k in edges && k.from == name :: k.to)
  }

  /** The edges leaving `name`, in the key order of the edge map. */
  function OutEdges(edges: Edges, name: Name): seq<Edge> {
    var order := Targets(edges, name);
    seq(|order|, i requires 0 <= i < |order| =>
      if EdgeKey(name, order[i]) in edges then edges[EdgeKey(name, order[i])] else Edge(name, name, None, None, 0, 0))
  }

  /** The entries of `out` are entries of the edge map that leave `cur`. */
  ghost predicate AllLeave(edges: Edges, out: seq<Edge>, cur: Name) {
    forall e :: e in out ==> e.Key() in edges && edges[e.Key()] == e && e.from == cur
  }

  lemma OutEdgesLeave(edges: Edges, name: Name)
    requires WellKeyed(edges)
    ensures AllLeave(edges, OutEdges(edges, name), name)
    ensures forall k :: k in edges && k.from == name ==> edges[k] in OutEdges(edges, name)
  {
    var order, out := Targets(edges, name), OutEdges(edges, name);
    assert forall i :: 0 <= i < |order| ==> order[i] in order;
    forall k | k in edges && k.from == name ensures edges[k] in out {
      assert k.to in order;
      var i :| 0 <= i < |order| && order[i] == k.to;
      assert EdgeKey(name, order[i]) == k && out[i] == edges[k];
    }
  }

  /** The first `i` edges of `out` relaxed in turn. */
  function RelaxFirst(g: Mesh, src: SourceState, out: seq<Edge>, i: nat, s: Search): Search
    requires i <= |out|
  {
    if i == 0 then s else RelaxEdge(g, src, out[i - 1], RelaxFirst(g, src, out, i - 1, s))
  }

  /** One turn of the search: take the head of the queue and relax every edge that leaves it. */
  function Step(g: Mesh, s: Search): Search {
    if s.queue == [] then s else
    var name, popped := s.queue[0], Search(s.nodes, s.queue[1..]);
    if name !in s.nodes || SourceOf(s.nodes[name]).None? then popped else
    var out := OutEdges(g.edges, name);
    RelaxFirst(g, SourceOf(s.nodes[name]).value, out, |out|, popped)
  }

  ghost function Iterate(g: Mesh, s: Search, n: nat): Search {
    if n == 0 then s else Step(g, Iterate(g, s, n - 1))
  }

  function Reset(node: Node): Node {
    node.(status := node.status.(visited := false, indirect := true), route := NO_ROUTE)
  }

  function Rooted(node: Node, myself: Name): Node {
    node.(status := node.status.(visited := true, indirect := false),
          route := RouteState(Some(0), Some(0), Some(myself), None, Some(myself)))
  }

  function Start(g: Mesh, nodes: Nodes): Search
    requires g.myself in nodes
  {
    var cleared := map n | n in nodes :: Reset(nodes[n]);
    Search(cleared[g.myself := Rooted(cleared[g.myself], g.myself)], [g.myself])
  }

  /** `result` is where the search from `nodes` comes to rest. */
  ghost predicate SearchEnds(g: Mesh, nodes: Nodes, result: Nodes)
    requires g.myself in nodes
  {
    exists n: nat :: Iterate(g, Start(g, nodes), n) == Search(result, [])
  }

  // Walks

  /** Each step of a walk goes over a two-way link. */
  ghost predicate IsWalk(edges: Edges, p: seq<Name>)
    decreases |p|
  {
    && |p| > 0
    && (|p| > 1 ==> TwoWay(edges, LastStep(p)) && IsWalk(edges, p[..|p| - 1]))
  }

  ghost function LastStep(p: seq<Name>): EdgeKey
    requires |p| > 1
  {
    EdgeKey(p[|p| - 2], p[|p| - 1])
  }

  /** A walk over links none of which is marked indirect. */
  ghost predicate IsDirectWalk(edges: Edges, p: seq<Name>)
    requires IsWalk(edges, p)
    decreases |p|
  {
    |p| > 1 ==> !edges[LastStep(p)].Indirect() && IsDirectWalk(edges, p[..|p| - 1])
  }

  ghost function WalkWeight(edges: Edges, p: seq<Name>): nat
    requires IsWalk(edges, p)
    decreases |p|
  {
    if |p| == 1 then 0 else WalkWeight(edges, p[..|p| - 1]) + edges[LastStep(p)].weight
  }

  ghost predicate WalkTo(g: Mesh, p: seq<Name>, n: Name) {
    IsWalk(g.edges, p) && p[0] == g.myself && p[|p| - 1] == n
  }

  ghost predicate Reachable(g: Mesh, n: Name) {
    exists p :: WalkTo(g, p, n)
  }

  ghost predicate DirectlyReachable(g: Mesh, n: Name) {
    exists p :: WalkTo(g, p, n) && IsDirectWalk(g.edges, p)
  }

  /** Some walk of this weight leads to `n` by way of `hop`. */
  ghost predicate Realised(g: Mesh, n: Name, hop: Name, weight: nat) {
    exists p :: WalkTo(g, p, n) && |p| >= 2 && p[1] == hop && WalkWeight(g.edges, p) == weight
  }

  lemma WalkExtends(g: Mesh, p: seq<Name>, u: Name, v: Name)
    requires WalkTo(g, p, u) && TwoWay(g.edges, EdgeKey(u, v))
    ensures WalkTo(g, p + [v], v)
    ensures WalkWeight(g.edges, p + [v]) == WalkWeight(g.edges, p) + g.edges[EdgeKey(u, v)].weight
  {
    assert (p + [v])[..|p + [v]| - 1] == p;
    assert LastStep(p + [v]) == EdgeKey(u, v);
  }

  // What holds of every node the search has visited, whatever edges are marked indirect

  ghost predicate NodeSound(g: Mesh, n: Name, node: Node) {
    && SourceOf(node).Some?
    && var src := SourceOf(node).value;
    && Reachable(g, n)
    && DirectlyReachable(g, src.via)
    && (!src.indirect ==> DirectlyReachable(g, n))
    && (n == g.myself ==> src == SourceState(false, 0, 0, n, n))
    && (n != g.myself ==> src.nextHop != g.myself && Realised(g, n, src.nextHop, src.weightedDistance))
  }

  ghost predicate EdgesWithin(edges: Edges, nodes: Nodes) {
    && WellKeyed(edges)
    && forall k :: k in edges ==> k.from in nodes && k.to in nodes
  }

  ghost predicate Visited(nodes: Nodes, n: Name) {
    n in nodes && nodes[n].status.visited
  }

  /** All two-way neighbours of `u` have been visited. */
  ghost predicate Closed(g: Mesh, nodes: Nodes, u: Name) {
    forall v :: TwoWay(g.edges, EdgeKey(u, v)) ==> Visited(nodes, v)
  }

  /** The search invariant; nodes that are queued or in `open` may still have unvisited neighbours. */
  ghost predicate Sound(g: Mesh, s: Search, open: set<Name>) {
    && EdgesWithin(g.edges, s.nodes)
    && Visited(s.nodes, g.myself)
    && (forall n :: Visited(s.nodes, n) ==> NodeSound(g, n, s.nodes[n]))
    && (forall n :: n in s.queue ==> Visited(s.nodes, n))
    && (forall n :: Visited(s.nodes, n) && n !in s.queue && n !in open ==> Closed(g, s.nodes, n))
    && (forall n :: n in s.nodes && !s.nodes[n].status.visited ==> s.nodes[n].route == NO_ROUTE)
  }

  lemma StartIsSound(g: Mesh, nodes: Nodes)
    requires g.myself in nodes && EdgesWithin(g.edges, nodes)
    ensures Sound(g, Start(g, nodes), {})
  {
    assert WalkTo(g, [g.myself], g.myself) && IsDirectWalk(g.edges, [g.myself]);
  }

  lemma ReachableExtends(g: Mesh, u: Name, v: Name)
    requires TwoWay(g.edges, EdgeKey(u, v)) && Reachable(g, u)
    ensures Reachable(g, v)
    ensures DirectlyReachable(g, u) && !g.edges[EdgeKey(u, v)].Indirect() ==> DirectlyReachable(g, v)
  {
    var p :| WalkTo(g, p, u);
    WalkExtends(g, p, u, v);
    if DirectlyReachable(g, u) && !g.edges[EdgeKey(u, v)].Indirect() {
      var d :| WalkTo(g, d, u) && IsDirectWalk(g.edges, d);
      WalkExtends(g, d, u, v);
      assert (d + [v])[..|d + [v]| - 1] == d && LastStep(d + [v]) == EdgeKey(u, v);
    }
  }

  lemma RealisedExtends(g: Mesh, u: Name, src: SourceState, v: Name)
    requires TwoWay(g.edges, EdgeKey(u, v))
    requires u == g.myself ==> src.weightedDistance == 0
    requires u != g.myself ==> Realised(g, u, src.nextHop, src.weightedDistance)
    ensures Realised(g, v, if u == g.myself then v else src.nextHop,
                     src.weightedDistance + g.edges[EdgeKey(u, v)].weight)
  {
    if u == g.myself {
      assert WalkTo(g, [u], u) && WalkWeight(g.edges, [u]) == 0;
      WalkExtends(g, [u], u, v);
      assert ([u] + [v])[1] == v;
    } else {
      var q :| WalkTo(g, q, u) && |q| >= 2 && q[1] == src.nextHop && WalkWeight(g.edges, q) == src.weightedDistance;
      WalkExtends(g, q, u, v);
      assert (q + [v])[1] == src.nextHop;
    }
  }

  /** What accepting the route over `e` writes, spelled out. */
  lemma ReroutedSource(myself: Name, src: SourceState, e: Edge, to: Node)
    requires to.status.visited ==> SourceOf(to).Some?
    ensures var indirect := src.indirect || e.Indirect();
            var updates := UpdatesNextHop(to, src.distance + 1, src.weightedDistance + e.weight);
            SourceOf(Rerouted(myself, src, e, to)) == Some(SourceState(indirect, src.distance + 1,
              if updates then src.weightedDistance + e.weight else SourceOf(to).value.weightedDistance,
              if !updates then SourceOf(to).value.nextHop else if src.nextHop == myself then e.to else src.nextHop,
              if indirect then src.via else e.to))
  {
  }

  lemma ReroutedIsSound(g: Mesh, cur: Name, src: SourceState, e: Edge, from: Node, to: Node)
    requires NodeSound(g, cur, from) && SourceOf(from) == Some(src) && e.from == cur && e.to != g.myself
    requires TwoWay(g.edges, e.Key()) && g.edges[e.Key()] == e
    requires to.status.visited ==> NodeSound(g, e.to, to)
    ensures NodeSound(g, e.to, Rerouted(g.myself, src, e, to)) && Rerouted(g.myself, src, e, to).status.visited
  {
    ReachableExtends(g, cur, e.to);
    RealisedExtends(g, cur, src, e.to);
    ReroutedSource(g.myself, src, e, to);
    hide SourceOf, Rerouted, Reachable, DirectlyReachable, Realised;
  }

  lemma SelfLoopIsSkipped(g: Mesh, cur: Name, src: SourceState, e: Edge, nodes: Nodes)
    requires Visited(nodes, cur) && SourceOf(nodes[cur]) == Some(src) && e.to == cur
    ensures Skips(g, src, e, nodes)
  {
  }

  /** Writing a sound, visited node and queueing it keeps the invariant. */
  lemma UpdateIsSound(g: Mesh, s: Search, open: set<Name>, v: Name, node: Node)
    requires Sound(g, s, open) && v in s.nodes && v != g.myself
    requires NodeSound(g, v, node) && node.status.visited
    ensures Sound(g, Search(s.nodes[v := node], s.queue + [v]), open)
  {
    hide NodeSound;
    var t := Search(s.nodes[v := node], s.queue + [v]);
    assert forall n :: Visited(t.nodes, n) <==> n == v || Visited(s.nodes, n);
    forall n | Visited(t.nodes, n) && n !in t.queue && n !in open ensures Closed(g, t.nodes, n) {
      assert n != v by { assert t.queue[|s.queue|] == v; }
      assert n !in s.queue by { assert forall x :: x in s.queue ==> x in t.queue; }
      assert Closed(g, s.nodes, n);
    }
  }

  lemma AcceptedMeans(g: Mesh, src: SourceState, e: Edge, s: Search)
    requires !Skips(g, src, e, s.nodes)
    ensures e.to != g.myself && TwoWay(g.edges, e.Key()) && e.to in s.nodes
  {
  }

  lemma SoundMeans(g: Mesh, s: Search, open: set<Name>, n: Name)
    requires Sound(g, s, open)
    ensures EdgesWithin(g.edges, s.nodes) && (forall m :: m in s.queue ==> Visited(s.nodes, m))
    ensures Visited(s.nodes, n) ==> NodeSound(g, n, s.nodes[n])
  {
  }

  lemma RelaxIsSound(g: Mesh, cur: Name, src: SourceState, e: Edge, s: Search)
    requires Sound(g, s, {cur}) && Visited(s.nodes, cur) && SourceOf(s.nodes[cur]) == Some(src)
    requires e.Key() in g.edges && g.edges[e.Key()] == e && e.from == cur
    ensures var t := RelaxEdge(g, src, e, s);
            && Sound(g, t, {cur}) && Visited(t.nodes, cur) && t.nodes[cur] == s.nodes[cur]
            && (TwoWay(g.edges, e.Key()) ==> Visited(t.nodes, e.to))
            && (forall n :: Visited(s.nodes, n) ==> Visited(t.nodes, n))
  {
    hide Sound, NodeSound, SourceOf, Rerouted, Skips;
    if Skips(g, src, e, s.nodes) {
      if TwoWay(g.edges, e.Key()) { SkippedIsVisited(g, src, e, s); }
    } else {
      AcceptedMeans(g, src, e, s);
      SoundMeans(g, s, {cur}, cur);
      SoundMeans(g, s, {cur}, e.to);
      if e.to == cur { SelfLoopIsSkipped(g, cur, src, e, s.nodes); }
      ReroutedIsSound(g, cur, src, e, s.nodes[cur], s.nodes[e.to]);
      UpdateIsSound(g, s, {cur}, e.to, Rerouted(g.myself, src, e, s.nodes[e.to]));
    }
  }

  lemma SkippedIsVisited(g: Mesh, src: SourceState, e: Edge, s: Search)
    requires Sound(g, s, {e.from}) && Skips(g, src, e, s.nodes) && TwoWay(g.edges, e.Key())
    ensures Visited(s.nodes, e.to)
  {
    hide NodeSound;
    assert e.Key() in g.edges;
  }

  lemma LeavingEdge(edges: Edges, out: seq<Edge>, cur: Name, i: nat)
    requires AllLeave(edges, out, cur) && i < |out|
    ensures out[i].from == cur && EdgeKey(cur, out[i].to) == out[i].Key() && out[i].Key() in edges
    ensures edges[out[i].Key()] == out[i]
  {
    assert out[i] in out;
  }

  lemma {:induction false} RelaxFirstIsSound(g: Mesh, cur: Name, src: SourceState, out: seq<Edge>, i: nat, s: Search)
    requires Sound(g, s, {cur}) && Visited(s.nodes, cur) && SourceOf(s.nodes[cur]) == Some(src)
    requires i <= |out| && AllLeave(g.edges, out, cur)
    ensures var t := RelaxFirst(g, src, out, i, s);
            && Sound(g, t, {cur}) && Visited(t.nodes, cur) && t.nodes[cur] == s.nodes[cur]
            && (forall j :: 0 <= j < i && TwoWay(g.edges, EdgeKey(cur, out[j].to)) ==> Visited(t.nodes, out[j].to))
  {
    hide SourceOf, RelaxEdge, Sound, AllLeave;
    if i == 0 {
    } else {
      RelaxFirstIsSound(g, cur, src, out, i - 1, s);
      LeavingEdge(g.edges, out, cur, i - 1);
      RelaxIsSound(g, cur, src, out[i - 1], RelaxFirst(g, src, out, i - 1, s));
    }
  }

  lemma PopQueue(s: Search)
    requires s.queue != []
    ensures forall n :: n in s.queue <==> n == s.queue[0] || n in s.queue[1..]
  {
    assert s.queue == [s.queue[0]] + s.queue[1..];
  }

  lemma PopIsSound(g: Mesh, s: Search)
    requires Sound(g, s, {}) && s.queue != []
    ensures var cur := s.queue[0];
            && Sound(g, Search(s.nodes, s.queue[1..]), {cur}) && Visited(s.nodes, cur)
            && NodeSound(g, cur, s.nodes[cur]) && SourceOf(s.nodes[cur]).Some?
  {
    PopQueue(s);
    assert s.queue[0] in s.queue;
  }

  lemma CloseIsSound(g: Mesh, s: Search, cur: Name)
    requires Sound(g, s, {cur}) && Closed(g, s.nodes, cur)
    ensures Sound(g, s, {})
  {
    hide NodeSound, Closed;
  }

  /** Once all edges leaving `cur` are dealt with, `cur` has no unvisited neighbour. */
  lemma RelaxedIsClosed(g: Mesh, cur: Name, nodes: Nodes, out: seq<Edge>)
    requires WellKeyed(g.edges) && out == OutEdges(g.edges, cur)
    requires forall j :: 0 <= j < |out| && TwoWay(g.edges, EdgeKey(cur, out[j].to)) ==> Visited(nodes, out[j].to)
    ensures Closed(g, nodes, cur)
  {
    OutEdgesLeave(g.edges, cur);
    hide OutEdges;
    forall v | TwoWay(g.edges, EdgeKey(cur, v)) ensures Visited(nodes, v) {
      var j :| 0 <= j < |out| && out[j] == g.edges[EdgeKey(cur, v)];
    }
  }

  lemma StepIsSound(g: Mesh, s: Search)
    requires Sound(g, s, {})
    ensures Sound(g, Step(g, s), {})
  {
    hide Sound, NodeSound, SourceOf, RelaxFirst, OutEdges;
    if s.queue != [] {
      var cur, popped := s.queue[0], Search(s.nodes, s.queue[1..]);
      PopIsSound(g, s);
      SoundMeans(g, s, {}, cur);
      var out := OutEdges(g.edges, cur);
      OutEdgesLeave(g.edges, cur);
      var src := SourceOf(s.nodes[cur]).value;
      RelaxFirstIsSound(g, cur, src, out, |out|, popped);
      var t := RelaxFirst(g, src, out, |out|, popped);
      RelaxedIsClosed(g, cur, t.nodes, out);
      CloseIsSound(g, t, cur);
    }
  }

  lemma {:induction false} IterateIsSound(g: Mesh, nodes: Nodes, n: nat)
    requires g.myself in nodes && EdgesWithin(g.edges, nodes)
    ensures Sound(g, Iterate(g, Start(g, nodes), n), {})
  {
    StartIsSound(g, nodes);
    if n == 0 {
    } else {
      IterateIsSound(g, nodes, n - 1);
      StepIsSound(g, Iterate(g, Start(g, nodes), n - 1));
    }
  }

  lemma {:induction false} ClosedReachesAll(g: Mesh, nodes: Nodes, p: seq<Name>, n: Name)
    requires Visited(nodes, g.myself) && WalkTo(g, p, n)
    requires forall u :: Visited(nodes, u) ==> Closed(g, nodes, u)
    ensures Visited(nodes, n)
    decreases |p|
  {
    if |p| <= 1 {
    } else {
      var u := p[|p| - 2];
      assert WalkTo(g, p[..|p| - 1], u);
      ClosedReachesAll(g, nodes, p[..|p| - 1], u);
      assert LastStep(p) == EdgeKey(u, n);
    }
  }

  /** Whatever edges are indirect, the search visits exactly the nodes joined to this one by two-way links, gives each a
      weighted distance that a real walk through its next hop has, and relays only through directly reachable nodes. */
  lemma SearchIsSound(g: Mesh, nodes: Nodes, result: Nodes)
    requires g.myself in nodes && EdgesWithin(g.edges, nodes) && SearchEnds(g, nodes, result)
    ensures forall n :: Visited(result, n) <==> Reachable(g, n)
    ensures forall n :: Visited(result, n) ==> NodeSound(g, n, result[n])
    ensures forall n :: n in result && !result[n].status.visited ==> result[n].route == NO_ROUTE
  {
    var n: nat :| Iterate(g, Start(g, nodes), n) == Search(result, []);
    IterateIsSound(g, nodes, n);
    forall n | Reachable(g, n) ensures Visited(result, n) {
      var p :| WalkTo(g, p, n);
      ClosedReachesAll(g, result, p, n);
    }
  }

  // What the search finds when no edge is indirect

  ghost predicate NoIndirect(edges: Edges) {
    forall k :: k in edges ==> !edges[k].Indirect()
  }

  ghost function Hops(nodes: Nodes, n: Name): nat {
    if n in nodes && nodes[n].route.distance.Some? then nodes[n].route.distance.value else 0
  }

  ghost function Cost(nodes: Nodes, n: Name): nat {
    if n in nodes && nodes[n].route.weightedDistance.Some? then nodes[n].route.weightedDistance.value else 0
  }

  /** `v` is visited and no worse than the route that reaches it over the link from `u`. */
  ghost predicate Tight(g: Mesh, nodes: Nodes, u: Name, v: Name)
    requires EdgeKey(u, v) in g.edges
  {
    && Visited(nodes, v)
    && Hops(nodes, v) <= Hops(nodes, u) + 1
    && (Hops(nodes, v) == Hops(nodes, u) + 1
        ==> Cost(nodes, v) <= Cost(nodes, u) + g.edges[EdgeKey(u, v)].weight)
  }

  /** No link out of `u` that was tight has stopped being so. */
  ghost predicate StaysTight(g: Mesh, before: Nodes, after: Nodes, u: Name) {
    forall v :: TwoWay(g.edges, EdgeKey(u, v)) && Tight(g, before, u, v) ==> Tight(g, after, u, v)
  }

  ghost predicate TightUpTo(g: Mesh, nodes: Nodes, u: Name, out: seq<Edge>, i: nat)
    requires i <= |out|
  {
    forall j :: 0 <= j < i && TwoWay(g.edges, EdgeKey(u, out[j].to)) ==> Tight(g, nodes, u, out[j].to)
  }

  ghost predicate AllTight(g: Mesh, nodes: Nodes, u: Name) {
    forall v :: TwoWay(g.edges, EdgeKey(u, v)) ==> Tight(g, nodes, u, v)
  }

  /** The previous edge of `v` explains its distance, its cost and its next hop. */
  ghost predicate Explained(g: Mesh, nodes: Nodes, v: Name)
    requires v in nodes
  {
    && nodes[v].route.previousEdge.Some?
    && var k := nodes[v].route.previousEdge.value;
    && TwoWay(g.edges, k) && k.to == v && Visited(nodes, k.from)
    && nodes[v].route.distance == Some(Hops(nodes, k.from) + 1)
    && nodes[v].route.weightedDistance == Some(Cost(nodes, k.from) + g.edges[k].weight)
    && nodes[v].route.nextHop == (if k.from == g.myself then Some(v) else nodes[k.from].route.nextHop)
  }

  /** While the search works on layer `d`: nothing is further than `d + 1`, the queue is in order of distance,
      every route is explained by its previous edge, and nodes neither queued nor open are settled. */
  ghost predicate Layered(g: Mesh, s: Search, d: nat, open: set<Name>) {
    && (forall n :: Visited(s.nodes, n) ==> !s.nodes[n].status.indirect && Hops(s.nodes, n) <= d + 1)
    && (forall n :: n in s.queue ==> d <= Hops(s.nodes, n))
    && (forall i, j :: 0 <= i < j < |s.queue| ==> Hops(s.nodes, s.queue[i]) <= Hops(s.nodes, s.queue[j]))
    && (forall n {:trigger Explained(g, s.nodes, n)} ::
          Visited(s.nodes, n) && n != g.myself ==> Explained(g, s.nodes, n))
    && (forall n :: Visited(s.nodes, n) && n !in s.queue && n !in open ==> AllTight(g, s.nodes, n))
  }

  /** Writing a node of the next layer that its new previous edge explains, and queueing it, keeps the layers. */
  lemma UpdateKeepsLayers(g: Mesh, s: Search, d: nat, cur: Name, v: Name, node: Node)
    requires EdgesWithin(g.edges, s.nodes) && Layered(g, s, d, {cur}) && Visited(s.nodes, cur)
             && Hops(s.nodes, cur) == d
    requires v in s.nodes && v != g.myself && v != cur && TwoWay(g.edges, EdgeKey(cur, v))
    requires forall n :: n in s.queue ==> Visited(s.nodes, n)
    requires Visited(s.nodes, v) ==> Hops(s.nodes, v) == d + 1
                                     && Cost(s.nodes, cur) + g.edges[EdgeKey(cur, v)].weight <= Cost(s.nodes, v)
    requires node.status.visited && !node.status.indirect && node.route.distance == Some(d + 1)
    requires Explained(g, s.nodes[v := node], v) && node.route.previousEdge == Some(EdgeKey(cur, v))
    ensures Layered(g, Search(s.nodes[v := node], s.queue + [v]), d, {cur})
    ensures StaysTight(g, s.nodes, s.nodes[v := node], cur)
    ensures Tight(g, s.nodes[v := node], cur, v)
  {
    var t := Search(s.nodes[v := node], s.queue + [v]);
    UpdateKeepsMeasures(s.nodes, v, node, t.nodes);
    assert t.nodes[v].route.weightedDistance == Some(Cost(s.nodes, cur) + g.edges[EdgeKey(cur, v)].weight);
    assert Hops(t.nodes, v) == d + 1;
    UpdateKeepsExplained(g, s, d, cur, v, node, t.nodes);
    UpdateKeepsTight(g, s, d, cur, v, node, t.nodes);
    UpdateKeepsQueue(g, s, d, cur, v, t.nodes);
    hide Explained, Tight, Hops, Cost, AllTight, StaysTight;
  }

  /** The queue stays in order of hops, with the written node at its end. */
  lemma UpdateKeepsQueue(g: Mesh, s: Search, d: nat, cur: Name, v: Name, after: Nodes)
    requires Layered(g, s, d, {cur}) && (forall n :: n in s.queue ==> Visited(s.nodes, n))
    requires forall n :: n != v ==> Hops(after, n) == Hops(s.nodes, n)
    requires Hops(after, v) == d + 1 && (Visited(s.nodes, v) ==> Hops(s.nodes, v) == d + 1)
    ensures var queue := s.queue + [v];
            && (forall n :: n in queue ==> d <= Hops(after, n))
            && (forall i, j :: 0 <= i < j < |queue| ==> Hops(after, queue[i]) <= Hops(after, queue[j]))
  {
    hide Explained, Hops, AllTight;
    var queue := s.queue + [v];
    forall i, j | 0 <= i < j < |queue| ensures Hops(after, queue[i]) <= Hops(after, queue[j]) {
      assert queue[i] == s.queue[i] && s.queue[i] in s.queue;
    }
  }

  lemma UpdateKeepsMeasures(nodes: Nodes, v: Name, node: Node, after: Nodes)
    requires node.status.visited && after == nodes[v := node]
    ensures forall n :: Visited(after, n) <==> n == v || Visited(nodes, n)
    ensures forall n :: n != v ==> Hops(after, n) == Hops(nodes, n) && Cost(after, n) == Cost(nodes, n)
  {
  }

  lemma UpdateKeepsExplained(g: Mesh, s: Search, d: nat, cur: Name, v: Name, node: Node, after: Nodes)
    requires Layered(g, s, d, {cur}) && v in s.nodes && node.status.visited && after == s.nodes[v := node]
    requires Visited(s.nodes, v) ==> Hops(s.nodes, v) == d + 1
    requires Explained(g, after, v)
    ensures forall n {:trigger Explained(g, after, n)} :: Visited(after, n) && n != g.myself ==> Explained(g, after, n)
  {
    hide AllTight;
    UpdateKeepsMeasures(s.nodes, v, node, after);
    forall n | Visited(after, n) && n != g.myself ensures Explained(g, after, n) {
      if n != v {
        assert Visited(s.nodes, n) && Explained(g, s.nodes, n);
        assert s.nodes[n].route.previousEdge.value.from != v;
      }
    }
  }

  lemma UpdateKeepsTight(g: Mesh, s: Search, d: nat, cur: Name, v: Name, node: Node, after: Nodes)
    requires Layered(g, s, d, {cur}) && v in s.nodes && v != cur && node.status.visited && after == s.nodes[v := node]
    requires Visited(s.nodes, v) ==> Hops(s.nodes, v) == d + 1 && Cost(after, v) <= Cost(s.nodes, v)
    requires Hops(after, v) == d + 1
    ensures forall n :: Visited(after, n) && n !in s.queue + [v] && n !in {cur} ==> AllTight(g, after, n)
    ensures StaysTight(g, s.nodes, after, cur)
  {
    var queue := s.queue + [v];
    UpdateKeepsMeasures(s.nodes, v, node, after);
    hide Explained, Hops, Cost;
    forall n | Visited(after, n) && n !in queue && n !in {cur} ensures AllTight(g, after, n) {
      assert n != v by { assert queue[|s.queue|] == v; }
      assert n !in s.queue by { assert forall x :: x in s.queue ==> x in queue; }
      assert AllTight(g, s.nodes, n);
    }
  }

  lemma RelaxKeepsLayers(g: Mesh, cur: Name, src: SourceState, e: Edge, s: Search, d: nat)
    requires NoIndirect(g.edges) && Sound(g, s, {cur}) && Layered(g, s, d, {cur})
    requires Visited(s.nodes, cur) && SourceOf(s.nodes[cur]) == Some(src) && Hops(s.nodes, cur) == d
    requires e.Key() in g.edges && g.edges[e.Key()] == e && e.from == cur
    ensures var t := RelaxEdge(g, src, e, s);
            && Layered(g, t, d, {cur}) && StaysTight(g, s.nodes, t.nodes, cur)
            && (TwoWay(g.edges, e.Key()) ==> Tight(g, t.nodes, cur, e.to))
  {
    hide Sound, Layered, NodeSound, SourceOf, Tight, Hops, Cost, Rerouted, Skips, NoIndirect, Explained;
    SoundMeans(g, s, {cur}, cur);
    SoundMeans(g, s, {cur}, e.to);
    if Skips(g, src, e, s.nodes) {
      if TwoWay(g.edges, e.Key()) {
        SkippedIsVisited(g, src, e, s);
        SkippedIsTight(g, cur, src, e, s, d);
      }
    } else {
      AcceptedMeans(g, src, e, s);
      if e.to == cur { SelfLoopIsSkipped(g, cur, src, e, s.nodes); }
      AcceptedIsExplained(g, cur, src, e, s, d);
      UpdateKeepsLayers(g, s, d, cur, e.to, Rerouted(g.myself, src, e, s.nodes[e.to]));
    }
  }

  lemma SkippedIsTight(g: Mesh, cur: Name, src: SourceState, e: Edge, s: Search, d: nat)
    requires Skips(g, src, e, s.nodes) && Layered(g, s, d, {cur}) && NoIndirect(g.edges)
    requires Visited(s.nodes, cur) && SourceOf(s.nodes[cur]) == Some(src) && Hops(s.nodes, cur) == d
    requires e.Key() in g.edges && g.edges[e.Key()] == e && e.from == cur && e.to in s.nodes
    requires TwoWay(g.edges, e.Key()) && Visited(s.nodes, e.to) && NodeSound(g, e.to, s.nodes[e.to])
    ensures Tight(g, s.nodes, cur, e.to)
  {
    hide Reachable, DirectlyReachable, Realised, Explained, AllTight;
  }

  lemma AcceptedIsExplained(g: Mesh, cur: Name, src: SourceState, e: Edge, s: Search, d: nat)
    requires !Skips(g, src, e, s.nodes) && Layered(g, s, d, {cur}) && NoIndirect(g.edges) && e.to != cur
    requires Visited(s.nodes, cur) && SourceOf(s.nodes[cur]) == Some(src) && Hops(s.nodes, cur) == d
    requires e.Key() in g.edges && g.edges[e.Key()] == e && e.from == cur
    requires NodeSound(g, cur, s.nodes[cur])
    requires Visited(s.nodes, e.to) ==> NodeSound(g, e.to, s.nodes[e.to])
    ensures var node := Rerouted(g.myself, src, e, s.nodes[e.to]);
            && !node.status.indirect && Explained(g, s.nodes[e.to := node], e.to)
            && node.route.previousEdge == Some(EdgeKey(cur, e.to))
            && node.status.visited && node.route.distance == Some(d + 1)
    ensures Visited(s.nodes, e.to) ==> Hops(s.nodes, e.to) == d + 1
                                       && Cost(s.nodes, cur) + e.weight <= Cost(s.nodes, e.to)
  {
    hide Reachable, DirectlyReachable, Realised, AllTight;
  }

  lemma {:induction false} RelaxFirstKeepsLayers(g: Mesh, cur: Name, src: SourceState, out: seq<Edge>, i: nat,
      s: Search, d: nat)
    requires NoIndirect(g.edges) && Sound(g, s, {cur}) && Layered(g, s, d, {cur})
    requires Visited(s.nodes, cur) && SourceOf(s.nodes[cur]) == Some(src) && Hops(s.nodes, cur) == d
    requires i <= |out| && AllLeave(g.edges, out, cur)
    ensures var t := RelaxFirst(g, src, out, i, s);
            && Layered(g, t, d, {cur}) && Visited(t.nodes, cur) && t.nodes[cur] == s.nodes[cur]
            && TightUpTo(g, t.nodes, cur, out, i)
  {
    hide SourceOf, RelaxEdge, Layered, StaysTight, TightUpTo, Sound, NoIndirect, Tight, AllLeave, TwoWay, Hops, Visited;
    if i > 0 {
      RelaxFirstKeepsLayers(g, cur, src, out, i - 1, s, d);
      RelaxFirstIsSound(g, cur, src, out, i - 1, s);
      var m := RelaxFirst(g, src, out, i - 1, s);
      LeavingEdge(g.edges, out, cur, i - 1);
      SameHops(s.nodes, m.nodes, cur);
      RelaxIsSound(g, cur, src, out[i - 1], m);
      RelaxKeepsLayers(g, cur, src, out[i - 1], m, d);
      OneMoreTight(g, m.nodes, RelaxEdge(g, src, out[i - 1], m).nodes, cur, out, i);
    } else {
      NoneTightYet(g, s.nodes, cur, out);
    }
  }

  lemma SameHops(a: Nodes, b: Nodes, n: Name)
    requires Visited(a, n) && Visited(b, n) && a[n] == b[n]
    ensures Hops(a, n) == Hops(b, n)
  {
  }

  lemma OneMoreTight(g: Mesh, before: Nodes, after: Nodes, u: Name, out: seq<Edge>, i: nat)
    requires 0 < i <= |out| && TightUpTo(g, before, u, out, i - 1) && StaysTight(g, before, after, u)
    requires var k := EdgeKey(u, out[i - 1].to); TwoWay(g.edges, k) ==> Tight(g, after, u, k.to)
    ensures TightUpTo(g, after, u, out, i)
  {
    hide Tight;
  }

  lemma NoneTightYet(g: Mesh, nodes: Nodes, u: Name, out: seq<Edge>)
    ensures TightUpTo(g, nodes, u, out, 0)
  {
  }

  lemma PopKeepsLayers(g: Mesh, s: Search, d: nat)
    requires Layered(g, s, d, {}) && s.queue != [] && Visited(s.nodes, s.queue[0])
    ensures Layered(g, Search(s.nodes, s.queue[1..]), Hops(s.nodes, s.queue[0]), {s.queue[0]})
  {
    var popped := Search(s.nodes, s.queue[1..]);
    PopQueue(s);
    hide Explained, AllTight;
    assert s.queue[0] in s.queue;
    assert forall i :: 0 <= i < |popped.queue| ==> popped.queue[i] == s.queue[i + 1];
  }

  lemma SettleKeepsLayers(g: Mesh, s: Search, cur: Name, d: nat)
    requires Layered(g, s, d, {cur}) && AllTight(g, s.nodes, cur)
    ensures Layered(g, s, d, {})
  {
    hide AllTight, Explained, Hops;
  }

  lemma RelaxedIsTight(g: Mesh, cur: Name, nodes: Nodes, out: seq<Edge>)
    requires WellKeyed(g.edges) && out == OutEdges(g.edges, cur)
    requires TightUpTo(g, nodes, cur, out, |out|)
    ensures AllTight(g, nodes, cur)
  {
    OutEdgesLeave(g.edges, cur);
    hide OutEdges, Tight;
    forall v | TwoWay(g.edges, EdgeKey(cur, v)) ensures Tight(g, nodes, cur, v) {
      var j :| 0 <= j < |out| && out[j] == g.edges[EdgeKey(cur, v)];
    }
  }

  lemma StepKeepsLayers(g: Mesh, s: Search, d: nat)
    requires NoIndirect(g.edges) && Sound(g, s, {}) && Layered(g, s, d, {})
    requires s.queue != []
    ensures Layered(g, Step(g, s), Hops(s.nodes, s.queue[0]), {})
  {
    hide Sound, NodeSound, SourceOf, RelaxFirst, Layered, Tight, TightUpTo, AllTight, NoIndirect, Hops, OutEdges;
    var cur, popped := s.queue[0], Search(s.nodes, s.queue[1..]);
    PopIsSound(g, s);
    SoundMeans(g, s, {}, cur);
    PopKeepsLayers(g, s, d);
    var out := OutEdges(g.edges, cur);
    OutEdgesLeave(g.edges, cur);
    var src := SourceOf(s.nodes[cur]).value;
    RelaxFirstKeepsLayers(g, cur, src, out, |out|, popped, Hops(s.nodes, cur));
    var t := RelaxFirst(g, src, out, |out|, popped);
    RelaxedIsTight(g, cur, t.nodes, out);
    SettleKeepsLayers(g, t, cur, Hops(s.nodes, cur));
  }

  lemma StartIsLayered(g: Mesh, nodes: Nodes)
    requires g.myself in nodes
    ensures Layered(g, Start(g, nodes), 0, {})
  {
    hide Explained, AllTight;
  }

  lemma {:induction false} IterateKeepsLayers(g: Mesh, nodes: Nodes, n: nat) returns (d: nat)
    requires g.myself in nodes && EdgesWithin(g.edges, nodes) && NoIndirect(g.edges)
    ensures Layered(g, Iterate(g, Start(g, nodes), n), d, {})
  {
    hide Start, Step, Layered, Sound, NoIndirect, EdgesWithin;
    if n == 0 {
      StartIsLayered(g, nodes);
      d := 0;
    } else {
      d := IterateKeepsLayers(g, nodes, n - 1);
      IterateIsSound(g, nodes, n - 1);
      var s := Iterate(g, Start(g, nodes), n - 1);
      if s.queue != [] {
        StepKeepsLayers(g, s, d);
        d := Hops(s.nodes, s.queue[0]);
      } else {
        StepAtRest(g, s);
      }
    }
  }

  lemma StepAtRest(g: Mesh, s: Search)
    requires s.queue == []
    ensures Step(g, s) == s
  {
  }

  /** The nodes on the route to `n`, found by following previous edges for `k` links. */
  ghost function PreviousChain(nodes: Nodes, n: Name, k: nat): seq<Name>
    decreases k
  {
    if k == 0 || n !in nodes || nodes[n].route.previousEdge.None? then [n]
    else PreviousChain(nodes, nodes[n].route.previousEdge.value.from, k - 1) + [n]
  }

  lemma {:induction false} ChainIsRoute(g: Mesh, nodes: Nodes, n: Name, k: nat)
    requires Visited(nodes, n) && k == Hops(nodes, n)
    requires Visited(nodes, g.myself) && Hops(nodes, g.myself) == 0 && Cost(nodes, g.myself) == 0
    requires forall v {:trigger Explained(g, nodes, v)} :: Visited(nodes, v) && v != g.myself ==> Explained(g, nodes, v)
    ensures var p := PreviousChain(nodes, n, k);
            && WalkTo(g, p, n) && |p| == k + 1 && WalkWeight(g.edges, p) == Cost(nodes, n)
            && (n != g.myself ==> |p| >= 2 && nodes[n].route.nextHop == Some(p[1]))
    decreases k
  {
    if n == g.myself {
      assert PreviousChain(nodes, n, k) == [n];
    } else {
      assert Explained(g, nodes, n);
      var u := nodes[n].route.previousEdge.value.from;
      ChainIsRoute(g, nodes, u, k - 1);
      var q := PreviousChain(nodes, u, k - 1);
      WalkExtends(g, q, u, n);
      hide IsWalk, WalkWeight;
      assert PreviousChain(nodes, n, k) == q + [n];
      assert u == g.myself ==> q == [u];
    }
  }

  lemma {:induction false} SettledIsOptimal(g: Mesh, nodes: Nodes, p: seq<Name>, n: Name)
    requires Visited(nodes, g.myself) && Hops(nodes, g.myself) == 0 && Cost(nodes, g.myself) == 0
    requires forall v :: Visited(nodes, v) ==> AllTight(g, nodes, v)
    requires WalkTo(g, p, n)
    ensures Visited(nodes, n) && Hops(nodes, n) <= |p| - 1
    ensures Hops(nodes, n) == |p| - 1 ==> Cost(nodes, n) <= WalkWeight(g.edges, p)
    decreases |p|
  {
    if |p| <= 1 {
    } else {
      var u := p[|p| - 2];
      assert WalkTo(g, p[..|p| - 1], u);
      SettledIsOptimal(g, nodes, p[..|p| - 1], u);
      assert LastStep(p) == EdgeKey(u, n);
      assert Tight(g, nodes, u, n);
    }
  }

  /** The best route to `n`: fewest links, then least weight, and `p` is such a route. */
  ghost predicate BestRoute(g: Mesh, p: seq<Name>, n: Name) {
    && WalkTo(g, p, n)
    && forall q :: WalkTo(g, q, n)
         ==> |p| < |q| || (|p| == |q| && WalkWeight(g.edges, p) <= WalkWeight(g.edges, q))
  }

  /** The facts a finished search without indirect edges ends with. */
  ghost predicate Settled(g: Mesh, nodes: Nodes) {
    && Visited(nodes, g.myself) && Hops(nodes, g.myself) == 0 && Cost(nodes, g.myself) == 0
    && (forall v :: Visited(nodes, v) ==> NodeSound(g, v, nodes[v]) && !nodes[v].status.indirect)
    && (forall v {:trigger Explained(g, nodes, v)} :: Visited(nodes, v) && v != g.myself ==> Explained(g, nodes, v))
    && (forall v :: Visited(nodes, v) ==> AllTight(g, nodes, v))
  }

  lemma SearchSettles(g: Mesh, nodes: Nodes, result: Nodes)
    requires g.myself in nodes && EdgesWithin(g.edges, nodes) && NoIndirect(g.edges)
    requires SearchEnds(g, nodes, result)
    ensures Settled(g, result)
  {
    var i: nat :| Iterate(g, Start(g, nodes), i) == Search(result, []);
    IterateIsSound(g, nodes, i);
    var d := IterateKeepsLayers(g, nodes, i);
    var s := Iterate(g, Start(g, nodes), i);
    assert NodeSound(g, g.myself, result[g.myself]);
    hide Start, Iterate, Explained, AllTight, Reachable, DirectlyReachable, Realised;
    assert Layered(g, s, d, {}) && Sound(g, s, {});
  }

  lemma RouteIsPresent(g: Mesh, n: Name, node: Node)
    requires NodeSound(g, n, node)
    ensures node.route.distance.Some? && node.route.weightedDistance.Some?
    ensures n == g.myself ==> node.route.nextHop == Some(n) && node.route.distance == Some(0)
  {
  }

  lemma SettledChainIsBest(g: Mesh, nodes: Nodes, n: Name)
    requires Settled(g, nodes) && Visited(nodes, n)
    ensures BestRoute(g, PreviousChain(nodes, n, Hops(nodes, n)), n)
  {
    ChainIsRoute(g, nodes, n, Hops(nodes, n));
    var p := PreviousChain(nodes, n, Hops(nodes, n));
    forall q | WalkTo(g, q, n)
      ensures |p| < |q| || (|p| == |q| && WalkWeight(g.edges, p) <= WalkWeight(g.edges, q))
    {
      SettledIsOptimal(g, nodes, q, n);
    }
  }

  /** With no indirect edges, every visited node's previous edges spell out a best route: its length is the distance,
      its weight the weighted distance, its first link the next hop. */
  lemma SearchIsOptimal(g: Mesh, nodes: Nodes, result: Nodes, n: Name)
    requires g.myself in nodes && EdgesWithin(g.edges, nodes) && NoIndirect(g.edges)
    requires SearchEnds(g, nodes, result) && Reachable(g, n)
    ensures Visited(result, n) && !result[n].status.indirect
    ensures var p := PreviousChain(result, n, Hops(result, n));
            && BestRoute(g, p, n)
            && |p| == Hops(result, n) + 1 && result[n].route.distance == Some(|p| - 1)
            && result[n].route.weightedDistance == Some(WalkWeight(g.edges, p))
            && result[n].route.nextHop == Some(if |p| > 1 then p[1] else n)
  {
    hide SearchEnds, EdgesWithin, NoIndirect, IsWalk, WalkWeight;
    SearchIsSound(g, nodes, result);
    SearchSettles(g, nodes, result);
    SettledRoute(g, result, n);
  }

  lemma SettledRoute(g: Mesh, nodes: Nodes, n: Name)
    requires Settled(g, nodes) && Visited(nodes, n)
    ensures !nodes[n].status.indirect
    ensures var p := PreviousChain(nodes, n, Hops(nodes, n));
            && BestRoute(g, p, n)
            && |p| == Hops(nodes, n) + 1 && nodes[n].route.distance == Some(|p| - 1)
            && nodes[n].route.weightedDistance == Some(WalkWeight(g.edges, p))
            && nodes[n].route.nextHop == Some(if |p| > 1 then p[1] else n)
  {
    ChainIsRoute(g, nodes, n, Hops(nodes, n));
    SettledChainIsBest(g, nodes, n);
    RouteIsPresent(g, n, nodes[n]);
    hide BestRoute, Settled, PreviousChain, NodeSound, IsWalk;
  }

  /** Two runs of the same search that have both come to rest agree. */
  lemma {:induction false} RestIsStable(g: Mesh, s: Search, m: nat, n: nat)
    requires m <= n && Iterate(g, s, m).queue == []
    ensures Iterate(g, s, n) == Iterate(g, s, m)
  {
    if m >= n {
    } else {
      RestIsStable(g, s, m, n - 1);
    }
  }

  lemma SearchIsDeterministic(g: Mesh, nodes: Nodes, a: Nodes, b: Nodes)
    requires g.myself in nodes && SearchEnds(g, nodes, a) && SearchEnds(g, nodes, b)
    ensures a == b
  {
    var m: nat :| Iterate(g, Start(g, nodes), m) == Search(a, []);
    var n: nat :| Iterate(g, Start(g, nodes), n) == Search(b, []);
    if m <= n {
      RestIsStable(g, Start(g, nodes), m, n);
    } else {
      RestIsStable(g, Start(g, nodes), n, m);
    }
  }
}
