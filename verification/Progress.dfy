/** Why the route search ends although it may queue a node again: every accepted route either visits a new node or
    makes some node's route lighter, counting an indirect route as half a unit heavier than a direct one. */
module Progress {
  import opened Basics
  import opened Names
  import opened Sums
  import opened Topology
  import opened Trees
  import opened Routes

  ghost function UnvisitedNodes(nodes: Nodes): set<Name> {
    set n | n in nodes && !nodes[n].status.visited
  }

  ghost function Rank(node: Node): nat {
    if !node.status.visited then 0
    else 2 * (if node.route.weightedDistance.Some? then node.route.weightedDistance.value else 0)
         + (if node.status.indirect then 1 else 0)
  }

  ghost function RankOf(nodes: Nodes, n: Name): int {
    if n in nodes then Rank(nodes[n]) else 0
  }

  ghost function Potential(nodes: Nodes): nat {
    SumNonNegative(nodes.Keys, n => RankOf(nodes, n));
    Sum(nodes.Keys, n => RankOf(nodes, n))
  }

  /** `after` is strictly nearer the end of the search than `before`. */
  ghost predicate Nearer(before: Nodes, after: Nodes) {
    || |UnvisitedNodes(after)| < |UnvisitedNodes(before)|
    || (|UnvisitedNodes(after)| == |UnvisitedNodes(before)| && Potential(after) < Potential(before))
  }

  lemma AcceptedRouteIsLighter(g: Mesh, src: SourceState, e: Edge, to: Node)
    requires SourceOf(to).Some? && to.status.visited
    requires !ShouldKeepExistingRoute(to, src.indirect || e.Indirect(), src.distance + 1,
               src.weightedDistance + e.weight)
    ensures Rank(Rerouted(g.myself, src, e, to)) < Rank(to)
  {
  }

  lemma UpdateIsNearer(nodes: Nodes, v: Name, node: Node)
    requires v in nodes && node.status.visited
    requires nodes[v].status.visited ==> Rank(node) < Rank(nodes[v])
    ensures Nearer(nodes, nodes[v := node])
  {
    var after := nodes[v := node];
    hide Rank;
    assert after.Keys == nodes.Keys;
    if nodes[v].status.visited {
      assert UnvisitedNodes(after) == UnvisitedNodes(nodes);
      SumChange(nodes.Keys, v, n => RankOf(nodes, n), n => RankOf(after, n));
    } else {
      CardinalityBelow(UnvisitedNodes(after), UnvisitedNodes(nodes), v);
    }
  }

  /** Relaxing an edge leaves everything alone or makes progress. */
  lemma RelaxIsProgress(g: Mesh, src: SourceState, e: Edge, s: Search, open: set<Name>)
    requires Sound(g, s, open)
    ensures var t := RelaxEdge(g, src, e, s); t == s || Nearer(s.nodes, t.nodes)
  {
    hide Sound, NodeSound, Rank, Nearer;
    if !Skips(g, src, e, s.nodes) {
      SoundMeans(g, s, open, e.to);
      var to := s.nodes[e.to];
      if to.status.visited {
        SoundHasSource(g, e.to, to);
        AcceptedRouteIsLighter(g, src, e, to);
      }
      UpdateIsNearer(s.nodes, e.to, Rerouted(g.myself, src, e, to));
    }
  }

  lemma SoundHasSource(g: Mesh, n: Name, node: Node)
    requires NodeSound(g, n, node)
    ensures SourceOf(node).Some?
  {
  }

  lemma NearerIsTransitive(a: Nodes, b: Nodes, c: Nodes)
    requires (a == b || Nearer(a, b)) && Nearer(b, c)
    ensures Nearer(a, c)
  {
  }

  lemma {:induction false} RelaxFirstIsProgress(g: Mesh, cur: Name, src: SourceState, out: seq<Edge>, i: nat, s: Search)
    requires Sound(g, s, {cur}) && Visited(s.nodes, cur) && SourceOf(s.nodes[cur]) == Some(src)
    requires i <= |out| && AllLeave(g.edges, out, cur)
    ensures var t := RelaxFirst(g, src, out, i, s); t == s || Nearer(s.nodes, t.nodes)
  {
    hide Sound, Nearer, SourceOf, RelaxEdge, AllLeave;
    if i == 0 {
    } else {
      RelaxFirstIsProgress(g, cur, src, out, i - 1, s);
      RelaxFirstIsSound(g, cur, src, out, i - 1, s);
      var m := RelaxFirst(g, src, out, i - 1, s);
      RelaxIsProgress(g, src, out[i - 1], m, {cur});
      var t := RelaxEdge(g, src, out[i - 1], m);
      if t != m { NearerIsTransitive(s.nodes, m.nodes, t.nodes); }
    }
  }

  /** Every turn brings the search nearer its end, or leaves the nodes alone and shortens the queue. */
  lemma StepIsProgress(g: Mesh, s: Search)
    requires Sound(g, s, {}) && s.queue != []
    ensures var t := Step(g, s); Nearer(s.nodes, t.nodes) || (t.nodes == s.nodes && |t.queue| < |s.queue|)
  {
    hide Sound, NodeSound, Nearer, SourceOf, RelaxFirst, OutEdges;
    var cur := s.queue[0];
    PopIsSound(g, s);
    SoundMeans(g, s, {}, cur);
    OutEdgesLeave(g.edges, cur);
    var out := OutEdges(g.edges, cur);
    RelaxFirstIsProgress(g, cur, SourceOf(s.nodes[cur]).value, out, |out|, Search(s.nodes, s.queue[1..]));
  }

  lemma NearerMeans(a: Nodes, b: Nodes)
    requires Nearer(a, b)
    ensures |UnvisitedNodes(b)| < |UnvisitedNodes(a)|
         || (|UnvisitedNodes(b)| == |UnvisitedNodes(a)| && Potential(b) < Potential(a))
  {
  }

  lemma {:induction false} IterateUnrolls(g: Mesh, s: Search, n: nat)
    ensures Iterate(g, Step(g, s), n) == Iterate(g, s, n + 1)
  {
    hide Step;
    if n == 0 {
    } else {
      IterateUnrolls(g, s, n - 1);
    }
  }

  lemma {:induction false} ComesToRest(g: Mesh, s: Search) returns (n: nat)
    requires Sound(g, s, {})
    ensures Iterate(g, s, n).queue == []
    decreases |UnvisitedNodes(s.nodes)|, Potential(s.nodes), |s.queue|
  {
    hide Sound, Nearer, Step, UnvisitedNodes, Potential;
    n := 0;
    if s.queue == [] {
    } else {
      StepIsSound(g, s);
      StepIsProgress(g, s);
      var t := Step(g, s);
      if Nearer(s.nodes, t.nodes) { NearerMeans(s.nodes, t.nodes); }
      n := ComesToRest(g, t);
      IterateUnrolls(g, s, n);
      n := n + 1;
    }
  }

  /** Every search has an end, for any edges with non-negative weights. */
  lemma SearchTerminates(g: Mesh, nodes: Nodes) returns (result: Nodes)
    requires g.myself in nodes && EdgesWithin(g.edges, nodes)
    ensures SearchEnds(g, nodes, result)
  {
    StartIsSound(g, nodes);
    var n := ComesToRest(g, Start(g, nodes));
    result := Iterate(g, Start(g, nodes), n).nodes;
  }
}
