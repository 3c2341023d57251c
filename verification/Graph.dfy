/** The graph a node keeps of the mesh: nodes, directed edges, routes and the links of the broadcast tree. */
module Graph {
  import opened Basics
  import opened Names
  import opened Order
  import opened Topology
  import opened Trees
  import opened Prim
  import opened Routes
  import opened Progress

  datatype GraphError = DuplicateNode(name: Name) | MissingNode(name: Name)

  datatype EdgeMutation = Inserted | Updated | Unchanged

  /** What putting `edge` into the map does to it. */
  function ChangeBy(edges: Edges, edge: Edge): EdgeMutation {
    if edge.Key() !in edges then Inserted else if edges[edge.Key()] == edge then Unchanged else Updated
  }

  datatype ReachabilityChanges = ReachabilityChanges(becameReachable: seq<Name>, becameUnreachable: seq<Name>)

  /** A snapshot of a graph. */
  datatype GraphView = GraphView(myself: Name, nodes: Nodes, edges: Edges, mst: set<EdgeKey>) {
    function Searched(): Mesh { Mesh(myself, edges) }

    ghost predicate Valid() {
      && myself in nodes && EdgesWithin(edges, nodes)
      && forall n :: n in nodes ==> nodes[n].name == n
    }
  }

  function ReachableNames(nodes: Nodes): set<Name> {
    set n | n in nodes && nodes[n].status.reachable
  }

  function OptionVersion(options: nat): nat {
    options / 0x100_0000 % 0x100
  }

  /** A node after its reachability has been brought into line with the last search. */
  function Reconciled(node: Node, experimental: bool, now: int): Node {
    if node.status.visited == node.status.reachable then node
    else if !node.status.visited then
      node.(status := NEW_STATUS, lastStateChange := now, options := 0, link := node.link.(udpAddress := None))
    else
      var sptps := node.status.session.sptps || (experimental && OptionVersion(node.options) >= 2);
      var session := node.status.session.(sptps := sptps, validKey := false, udpConfirmed := false,
                                          waitingForKey := !sptps && node.status.session.waitingForKey);
      node.(status := node.status.(reachable := true, session := session), lastStateChange := now)
  }

  ghost function ReconcileAll(nodes: Nodes, experimental: bool, now: int): Nodes {
    map n | n in nodes :: Reconciled(nodes[n], experimental, now)
  }

  predicate Changed(nodes: Nodes, n: Name, reachable: bool) {
    n in nodes && nodes[n].status.visited == reachable && nodes[n].status.reachable != reachable
  }

  /** The nodes of `names`, in that order, whose reachability turns into `reachable`. */
  function ChangesTo(nodes: Nodes, names: seq<Name>, reachable: bool): seq<Name> {
    if names == [] then []
    else
      ChangesTo(nodes, names[..|names| - 1], reachable) +
      (if Changed(nodes, names[|names| - 1], reachable) then [names[|names| - 1]] else [])
  }

  ghost function ChangesOf(nodes: Nodes): ReachabilityChanges {
    var names := SortNames(nodes.Keys);
    ReachabilityChanges(ChangesTo(nodes, names, true), ChangesTo(nodes, names, false))
  }

  /** The graph after `recompute_routes_at`: search, reconcile, mark the tree. */
  ghost predicate Recomputed(before: GraphView, after: GraphView, experimental: bool, now: int)
    requires before.myself in before.nodes
  {
    exists searched :: RecomputedThrough(before, after, searched, experimental, now)
  }

  ghost predicate RecomputedThrough(before: GraphView, after: GraphView, searched: Nodes, experimental: bool, now: int)
    requires before.myself in before.nodes
  {
    && SearchEnds(before.Searched(), before.nodes, searched)
    && after.nodes == ReconcileAll(searched, experimental, now)
    && after.myself == before.myself && after.edges == before.edges
    && after.mst == Kruskal(before.edges, ReachableNames(after.nodes))
  }

  class Graph {
    const myself: Name
    var nodes: Nodes
    var edges: Edges
    var mstEdges: set<EdgeKey>

    ghost function View(): GraphView
      reads this
    {
      GraphView(myself, nodes, edges, mstEdges)
    }

    ghost predicate Valid()
      reads this
    {
      View().Valid()
    }

    constructor (name: Name)
      ensures Valid() && View() == GraphView(name, map[name := NewNode(name)], map[], {})
    {
      myself, nodes, edges, mstEdges := name, map[name := NewNode(name)], map[], {};
    }

    method AddNode(node: Node) returns (r: Result<(), GraphError>)
      requires Valid()
      modifies this`nodes
      ensures Valid()
      ensures node.name in old(nodes) ==> r == Err(DuplicateNode(node.name)) && nodes == old(nodes)
      ensures node.name !in old(nodes) ==> r == Ok(()) && nodes == old(nodes)[node.name := node]
    {
      if node.name in nodes {
        return Err(DuplicateNode(node.name));
      }
      nodes := nodes[node.name := node];
      return Ok(());
    }

    method EnsureNode(name: Name) returns (created: bool)
      requires Valid()
      modifies this`nodes
      ensures Valid() && created == (name !in old(nodes))
      ensures nodes == if created then old(nodes)[name := NewNode(name)] else old(nodes)
    {
      if name in nodes {
        return false;
      }
      nodes := nodes[name := NewNode(name)];
      return true;
    }

    method UpsertEdge(edge: Edge) returns (r: Result<EdgeMutation, GraphError>)
      requires Valid()
      modifies this`edges
      ensures Valid()
      ensures r.Ok? <==> edge.from in nodes && edge.to in nodes
      ensures edge.from !in nodes ==> r == Err(MissingNode(edge.from))
      ensures edge.from in nodes && edge.to !in nodes ==> r == Err(MissingNode(edge.to))
      ensures edges == if r.Ok? then old(edges)[edge.Key() := edge] else old(edges)
      ensures r.Ok? ==> r.value == ChangeBy(old(edges), edge)
    {
      if edge.from !in nodes {
        return Err(MissingNode(edge.from));
      }
      if edge.to !in nodes {
        return Err(MissingNode(edge.to));
      }
      var key := edge.Key();
      if key in edges && edges[key] == edge {
        return Ok(Unchanged);
      } else if key in edges {
        edges := edges[key := edge];
        return Ok(Updated);
      } else {
        edges := edges[key := edge];
        return Ok(Inserted);
      }
    }

    method RemoveEdge(from: Name, to: Name) returns (removed: Option<Edge>)
      requires Valid()
      modifies this`edges, this`mstEdges
      ensures Valid()
      ensures var key := EdgeKey(from, to);
              && edges == old(edges) - {key} && mstEdges == old(mstEdges) - {key}
              && removed == if key in old(edges) then Some(old(edges)[key]) else None
    {
      var key := EdgeKey(from, to);
      mstEdges := mstEdges - {key};
      removed := if key in edges then Some(edges[key]) else None;
      edges := edges - {key};
    }

    /** Drops every edge that starts at `from` and returns them in key order. */
    method RemoveEdgesFrom(from: Name) returns (removed: seq<Edge>)
      requires Valid()
      modifies this`edges, this`mstEdges
      ensures Valid()
      ensures edges == map k | k in old(edges) && k.from != from :: old(edges)[k]
      ensures mstEdges == set k | k in old(mstEdges) && !(k.from == from && k in old(edges))
      ensures removed == OutEdges(old(edges), from)
    {
      hide OutEdges;
      var keys := set k | k in edges && k.from == from;
      mstEdges := mstEdges - keys;
      removed := OutEdges(edges, from);
      edges := edges - keys;
    }

    method HasEdgeTo(to: Name) returns (found: bool)
      ensures found <==> exists k :: k in edges && k.to == to
    {
      found := exists k :: k in edges && k.to == to;
    }

    method RemoveNode(name: Name) returns (removed: Option<Node>)
      requires Valid()
      modifies this`nodes, this`edges, this`mstEdges
      ensures Valid()
      ensures name == myself ==> removed == None && View() == old(View())
      ensures name != myself ==>
        && removed == (if name in old(nodes) then Some(old(nodes)[name]) else None)
        && nodes == old(nodes) - {name}
        && edges == (map k | k in old(edges) && k.from != name && k.to != name :: old(edges)[k])
        && mstEdges == (set k | k in old(mstEdges) && k.from != name && k.to != name)
    {
      if name == myself {
        return None;
      }
      edges := map k | k in edges && k.from != name && k.to != name :: edges[k];
      mstEdges := set k | k in mstEdges && k.from != name && k.to != name;
      removed := if name in nodes then Some(nodes[name]) else None;
      nodes := nodes - {name};
    }

    /** The route search. It ends for every graph, and its result is the rest state of `Routes.Iterate`. */
    method SsspBfs()
      requires Valid()
      modifies this`nodes
      ensures Valid() && SearchEnds(View().Searched(), old(nodes), nodes)
    {
      hide Sound, Step, Potential, UnvisitedNodes, Nearer, Reset, Rooted;
      ghost var g := View().Searched();
      ghost var before := nodes;
      ghost var turns := 0;
      var found := map n | n in nodes :: Reset(nodes[n]);
      found := found[myself := Rooted(found[myself], myself)];
      var queue := [myself];
      assert Search(found, queue) == Start(g, before);
      StartIsSound(g, before);
      StartKeepsNames(g, before);
      while queue != []
        invariant Iterate(g, Start(g, before), turns) == Search(found, queue)
        invariant Sound(g, Search(found, queue), {}) && SameNames(before, found)
        decreases |UnvisitedNodes(found)|, Potential(found), |queue|
      {
        ghost var last := found;
        StepIsSound(g, Search(found, queue));
        StepIsProgress(g, Search(found, queue));
        found, queue := Turn(found, queue);
        turns := turns + 1;
        NamesAreTransitive(before, last, found);
        if Nearer(last, found) { NearerMeans(last, found); }
      }
      SoundMeans(g, Search(found, []), {}, myself);
      nodes := found;
      assert SearchEnds(g, before, found);
    }

    /** One turn of the search: the head of the queue and the edges that leave it. */
    method Turn(nodes: Nodes, queue: seq<Name>) returns (nodes': Nodes, queue': seq<Name>)
      requires queue != []
      ensures Search(nodes', queue') == Step(Mesh(myself, edges), Search(nodes, queue))
      ensures SameNames(nodes, nodes')
    {
      hide RelaxFirst, SourceOf, OutEdges, RelaxEdge, SameNames;
      ghost var g := Mesh(myself, edges);
      var name := queue[0];
      nodes', queue' := nodes, queue[1..];
      KeepsNames(nodes);
      if name in nodes && SourceOf(nodes[name]).Some? {
        var from := SourceOf(nodes[name]).value;
        var out := OutEdges(edges, name);
        ghost var popped := Search(nodes, queue[1..]);
        RelaxNone(g, from, out, popped);
        for i := 0 to |out|
          invariant Search(nodes', queue') == RelaxFirst(g, from, out, i, popped)
          invariant SameNames(nodes, nodes')
        {
          ghost var last := nodes';
          nodes', queue' := Relax(nodes', queue', from, out[i]);
          RelaxOneMore(g, from, out, i, popped);
          NamesAreTransitive(nodes, last, nodes');
        }
      }
    }

    /** One edge of the search: skip it, or write the better route and queue its far end. */
    method Relax(nodes: Nodes, queue: seq<Name>, from: SourceState, edge: Edge)
      returns (nodes': Nodes, queue': seq<Name>)
      ensures Search(nodes', queue') == RelaxEdge(Mesh(myself, edges), from, edge, Search(nodes, queue))
      ensures SameNames(nodes, nodes')
    {
      nodes', queue' := nodes, queue;
      if edge.to == myself || edge.Key() !in edges || edge.Key().Reverse() !in edges || edge.to !in nodes {
        return;
      }
      var newDistance := from.distance + 1;
      var newWeighted := from.weightedDistance + edge.weight;
      var indirect := from.indirect || edge.Indirect();
      var to := nodes[edge.to];
      if ShouldKeepExistingRoute(to, indirect, newDistance, newWeighted) {
        return;
      }
      var updateNextHop := !to.status.visited
        || (to.route.distance == Some(newDistance)
            && to.route.weightedDistance.Some? && to.route.weightedDistance.value > newWeighted);
      var nextHop, weighted := to.route.nextHop, to.route.weightedDistance;
      if updateNextHop {
        nextHop := Some(if from.nextHop == myself then edge.to else from.nextHop);
        weighted := Some(newWeighted);
      }
      var via := if indirect then Some(from.via) else Some(edge.to);
      var node := to.(status := to.status.(visited := true, indirect := indirect),
                      route := RouteState(Some(newDistance), weighted, nextHop, Some(edge.Key()), via),
                      options := edge.options);
      nodes' := nodes[edge.to := node];
      queue' := queue + [edge.to];
    }

    /** Brings the reachable flags into line with the search and reports the nodes that changed, in name order. */
    method ReconcileReachabilityAt(experimental: bool, now: int) returns (changes: ReachabilityChanges)
      requires Valid()
      modifies this`nodes
      ensures Valid()
      ensures nodes == ReconcileAll(old(nodes), experimental, now)
      ensures changes == ChangesOf(old(nodes))
    {
      hide Reconciled, ReconcileAll;
      ReconciledKeepsNames(nodes, experimental, now);
      nodes, changes := ReconcileNodes(nodes, experimental, now);
    }

    /** Marks the links of the broadcast tree by the restarting scan over the edges in weight order. */
    method MstKruskal()
      requires Valid()
      modifies this`mstEdges
      ensures mstEdges == Kruskal(edges, ReachableNames(nodes))
    {
      hide Grow, WeightSorted, Unvisited;
      var es := edges;
      var sorted := WeightSorted(es);
      WeightSortedIsByWeight(es);
      var tree := {};
      var first := FirstReachable(sorted, ReachableNames(nodes));
      if first < |sorted| {
        tree := Scan(es, sorted, sorted[first].from);
      }
      mstEdges := tree;
    }
  }

  method ReconcileNodes(nodes: Nodes, experimental: bool, now: int) returns (after: Nodes, changes: ReachabilityChanges)
    requires forall n :: n in nodes ==> nodes[n].name == n
    ensures after == ReconcileAll(nodes, experimental, now) && changes == ChangesOf(nodes)
  {
    hide Reconciled, ChangesTo, PartlyReconciled, ReconcileAll, NameLess, Ascending;
    var names := SortNames(nodes.Keys);
    var up, down := [], [];
    after := nodes;
    ReconcileNone(nodes, experimental, now);
    NoChangeYet(nodes);
    assert names[..0] == [];
    for i := 0 to |names|
      invariant after == PartlyReconciled(nodes, names[..i], experimental, now)
      invariant up == ChangesTo(nodes, names[..i], true) && down == ChangesTo(nodes, names[..i], false)
    {
      var n := names[i];
      assert n in names;
      OneMoreChange(nodes, names, i, true);
      OneMoreChange(nodes, names, i, false);
      if nodes[n].status.visited != nodes[n].status.reachable {
        if nodes[n].status.visited {
          up := up + [nodes[n].name];
        } else {
          down := down + [nodes[n].name];
        }
      }
      ReconcileOneMore(nodes, names, i, experimental, now);
      var node := ReconcileNode(nodes[n], experimental, now);
      after := after[n := node];
    }
    assert names[..|names|] == names;
    ReconcileEvery(nodes, names, experimental, now);
    changes := ReachabilityChanges(up, down);
  }

  method ReconcileNode(node: Node, experimental: bool, now: int) returns (r: Node)
    ensures r == Reconciled(node, experimental, now)
  {
    r := node;
    if node.status.visited == node.status.reachable {
      return;
    }
    r := r.(status := r.status.(reachable := r.status.visited), lastStateChange := now);
    var session := r.status.session;
    if experimental && OptionVersion(r.options) >= 2 {
      session := session.(sptps := true);
    }
    session := session.(validKey := false);
    if session.sptps {
      session := session.(waitingForKey := false);
    }
    session := session.(udpConfirmed := false);
    r := r.(status := r.status.(session := session));
    if !r.status.reachable {
      r := r.(status := NEW_STATUS, options := 0, link := r.link.(udpAddress := None));
    }
  }

  /** The scan itself: after a link has been added behind skipped edges it starts again from the lightest edge. */
  method Scan(edges: Edges, sorted: seq<Edge>, start: Name) returns (tree: set<EdgeKey>)
    requires WellKeyed(edges) && ByWeight(sorted, edges)
    ensures tree == Grow(sorted, edges, {start}, {})
  {
    hide Grow, Unvisited, ByWeight;
    tree := {};
    var visited := {start};
    var skipped, index := false, 0;
    while index < |sorted|
      invariant 0 <= index <= |sorted|
      invariant Grow(sorted, edges, visited, tree) == Grow(sorted, edges, {start}, {})
      invariant forall j :: 0 <= j < index ==> !Frontier(edges, sorted[j], visited)
      invariant !skipped ==> forall j :: 0 <= j < index ==> sorted[j].from in visited && sorted[j].to in visited
      decreases |Unvisited(edges, visited)|, |sorted| - index
    {
      var edge := sorted[index];
      SortedEdgeIsStored(edges, sorted, index);
      if edge.Key().Reverse() !in edges || (edge.from in visited) == (edge.to in visited) {
        skipped := true;
        index := index + 1;
      } else {
        GrowStep(sorted, edges, visited, tree, index);
        GrowVisits(edges, edge, visited);
        visited := visited + {edge.from, edge.to};
        tree := tree + {edge.Key(), edge.Key().Reverse()};
        if skipped {
          skipped, index := false, 0;
        } else {
          index := index + 1;
        }
      }
    }
    GrowRests(sorted, edges, visited, tree);
  }

  lemma SortedEdgeIsStored(edges: Edges, sorted: seq<Edge>, i: nat)
    requires WellKeyed(edges) && ByWeight(sorted, edges) && i < |sorted|
    ensures sorted[i].Key() in edges
  {
    assert sorted[i] in edges.Values;
  }

  lemma GrowStep(s: seq<Edge>, edges: Edges, visited: set<Name>, tree: set<EdgeKey>, i: nat)
    requires i < |s| && Frontier(edges, s[i], visited)
    requires forall j :: 0 <= j < i ==> !Frontier(edges, s[j], visited)
    ensures Grow(s, edges, visited, tree)
         == Grow(s, edges, visited + {s[i].from, s[i].to}, tree + {s[i].Key(), s[i].Key().Reverse()})
  {
    assert Next(s, edges, visited) == i;
    assert Both(s[i].Key()) == {s[i].Key(), s[i].Key().Reverse()};
  }

  lemma GrowRests(s: seq<Edge>, edges: Edges, visited: set<Name>, tree: set<EdgeKey>)
    requires forall j :: 0 <= j < |s| ==> !Frontier(edges, s[j], visited)
    ensures Grow(s, edges, visited, tree) == tree
  {
    assert Next(s, edges, visited) == |s|;
  }

  ghost function PartlyReconciled(nodes: Nodes, done: seq<Name>, experimental: bool, now: int): Nodes {
    map n | n in nodes :: if n in done then Reconciled(nodes[n], experimental, now) else nodes[n]
  }

  lemma ReconcileNone(nodes: Nodes, experimental: bool, now: int)
    ensures PartlyReconciled(nodes, [], experimental, now) == nodes
  {
  }

  lemma ReconcileEvery(nodes: Nodes, names: seq<Name>, experimental: bool, now: int)
    requires forall n :: n in nodes ==> n in names
    ensures PartlyReconciled(nodes, names, experimental, now) == ReconcileAll(nodes, experimental, now)
  {
    hide Reconciled;
  }

  lemma NoChangeYet(nodes: Nodes)
    ensures ChangesTo(nodes, [], true) == [] && ChangesTo(nodes, [], false) == []
  {
  }

  lemma OneMoreChange(nodes: Nodes, names: seq<Name>, i: nat, reachable: bool)
    requires i < |names|
    ensures ChangesTo(nodes, names[..i + 1], reachable)
         == ChangesTo(nodes, names[..i], reachable) + (if Changed(nodes, names[i], reachable) then [names[i]] else [])
  {
    assert names[..i + 1][..i] == names[..i];
  }

  lemma ReconcileOneMore(nodes: Nodes, names: seq<Name>, i: nat, experimental: bool, now: int)
    requires i < |names| && names[i] in nodes
    ensures PartlyReconciled(nodes, names[..i + 1], experimental, now)
         == PartlyReconciled(nodes, names[..i], experimental,
           now)[names[i] := Reconciled(nodes[names[i]], experimental, now)]
  {
    hide Reconciled;
    assert names[..i + 1] == names[..i] + [names[i]];
  }

  lemma ReconciledKeepsNames(nodes: Nodes, experimental: bool, now: int)
    ensures ReconcileAll(nodes, experimental, now).Keys == nodes.Keys
    ensures forall n :: n in nodes ==> ReconcileAll(nodes, experimental, now)[n].name == nodes[n].name
  {
  }

  ghost predicate SameNames(a: Nodes, b: Nodes) {
    a.Keys == b.Keys && forall n :: n in a ==> b[n].name == a[n].name
  }

  lemma KeepsNames(a: Nodes)
    ensures SameNames(a, a)
  {
  }

  lemma NamesAreTransitive(a: Nodes, b: Nodes, c: Nodes)
    requires SameNames(a, b) && SameNames(b, c)
    ensures SameNames(a, c)
  {
  }

  lemma StartKeepsNames(g: Mesh, nodes: Nodes)
    requires g.myself in nodes
    ensures SameNames(nodes, Start(g, nodes).nodes)
  {
  }

  lemma RelaxNone(g: Mesh, src: SourceState, out: seq<Edge>, s: Search)
    ensures RelaxFirst(g, src, out, 0, s) == s
  {
  }

  lemma RelaxOneMore(g: Mesh, src: SourceState, out: seq<Edge>, i: nat, s: Search)
    requires i < |out|
    ensures RelaxFirst(g, src, out, i + 1, s) == RelaxEdge(g, src, out[i], RelaxFirst(g, src, out, i, s))
  {
  }
}
