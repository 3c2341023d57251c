/** The network state: the graph and the subnet table, and what each meta message does to them. */
module State {
  import opened Basics
  import opened Names
  import opened Order
  import opened Topology
  import opened Subnets
  import opened Messages
  import opened Routes
  import opened Prim
  import opened Graph
  import opened Recompute

  /** A snapshot of the network state. */
  datatype NetView = NetView(graph: GraphView, subnets: seq<Subnet>, experimental: bool) {
    ghost predicate Valid() {
      graph.Valid() && Sorted(subnets) && ConsistentOwnership(subnets)
    }
  }

  /** A state that has heard of nobody but itself. */
  function Fresh(me: Name): NetView { NetView(GraphView(me, map[me := NewNode(me)], map[], {}), [], true) }

  datatype StateMutation =
    | TerminateRequested
    | PingReceived
    | PongReceived
    | SubnetAdded(subnet: Subnet, owner: Name, inserted: bool, ownerCreated: bool)
    | SubnetDeleted(removedSubnet: Option<Subnet>)
    | EdgeAdded(edge: EdgeMutation, createdNodes: seq<Name>, addReachability: ReachabilityChanges)
    | EdgeDeleted(removedEdge: Option<Edge>, deleteReachability: ReachabilityChanges)
    | KeyInvalidated(origin: Name)
    | UdpLearned(udpFrom: Name, udpTo: Name, endpoint: Endpoint, changed: bool)
    | MtuLearned(mtuFrom: Name, mtuTo: Name, mtu: nat, previous: nat, updated: bool)
    | NoChange

  function Ensured(nodes: Nodes, n: Name): Nodes {
    if n in nodes then nodes else nodes[n := NewNode(n)]
  }

  function AddedUnique(s: seq<Subnet>, x: Subnet): seq<Subnet> {
    if Position(s, x) < |s| then s else Insert(s, x)
  }

  function Removed(s: seq<Subnet>, x: Subnet): seq<Subnet> {
    if Position(s, x) < |s| then Without(s, Position(s, x)) else s
  }

  function EdgeOfMessage(m: AddEdgeMessage): Edge {
    m.edge.(address := Some(Endpoint(m.address, m.port)),
            localAddress := if m.local.Some? then m.local else m.edge.localAddress)
  }

  /** The graph an ADD_EDGE message leaves behind before routes are recomputed. */
  function WithEdge(g: GraphView, m: AddEdgeMessage): GraphView {
    var e := EdgeOfMessage(m);
    g.(nodes := Ensured(Ensured(g.nodes, m.edge.from), m.edge.to), edges := g.edges[e.Key() := e])
  }

  function WithoutEdge(g: GraphView, from: Name, to: Name): GraphView {
    var k := EdgeKey(from, to);
    g.(edges := g.edges - {k}, mst := g.mst - {k})
  }

  function KeyForgotten(nodes: Nodes, origin: Name): Nodes {
    if origin !in nodes || nodes[origin].status.session.sptps then nodes
    else
      var node := nodes[origin];
      nodes[origin := node.(status := node.status.(session := node.status.session.(validKey := false)))]
  }

  function UdpUpdated(nodes: Nodes, myself: Name, from: Name, endpoint: Endpoint): Nodes {
    if from == myself || from !in nodes then nodes
    else
      var node := nodes[from];
      nodes[from := node.(status := node.status.(session := node.status.session.(udpConfirmed := false)),
                          link := LinkState(node.link.mtu, 0, DEFAULT_MTU, 0, Some(endpoint)))]
  }

  function MtuUpdated(nodes: Nodes, from: Name, mtu: nat): Nodes {
    if from !in nodes then nodes
    else
      var link := nodes[from].link;
      if link.mtu != mtu && link.minMtu != link.maxMtu
      then nodes[from := nodes[from].(link := link.(mtu := mtu))] else nodes
  }

  /** Routes recomputed, with `changes` the nodes whose reachability turned. */
  ghost predicate RecomputedReporting(before: GraphView, after: GraphView, changes: ReachabilityChanges,
      experimental: bool, now: int)
    requires before.myself in before.nodes
  {
    exists searched :: RecomputedThrough(before, after, searched, experimental, now) && changes == ChangesOf(searched)
  }

  lemma ReportingIsRecomputed(before: GraphView, after: GraphView, changes: ReachabilityChanges, experimental: bool,
      now: int)
    requires before.myself in before.nodes && RecomputedReporting(before, after, changes, experimental, now)
    ensures Recomputed(before, after, experimental, now)
  {
  }

  /** What `message` turns the state `a` into. */
  ghost predicate Applied(a: NetView, message: MetaMessage, b: NetView, now: int)
    requires a.graph.Valid()
  {
    match message
    case AddSubnet(m) =>
      b == a.(graph := a.graph.(nodes := Ensured(a.graph.nodes, m.owner)),
              subnets := AddedUnique(a.subnets, m.subnet.WithOwner(m.owner)))
    case DeleteSubnet(m) => b == a.(subnets := Removed(a.subnets, m.subnet.WithOwner(m.owner)))
    case AddEdge(m) =>
      && b == a.(graph := b.graph)
      && Recomputed(WithEdge(a.graph, m), b.graph, a.experimental, now)
    case DeleteEdge(m) =>
      && b == a.(graph := b.graph)
      && Recomputed(WithoutEdge(a.graph, m.from, m.to), b.graph, a.experimental, now)
    case KeyChanged(_, origin) => b == a.(graph := a.graph.(nodes := KeyForgotten(a.graph.nodes, origin)))
    case UdpInfo(from, _, endpoint) =>
      b == a.(graph := a.graph.(nodes := UdpUpdated(a.graph.nodes, a.graph.myself, from, endpoint)))
    case MtuInfo(from, _, mtu) => b == a.(graph := a.graph.(nodes := MtuUpdated(a.graph.nodes, from, mtu)))
    case _ => b == a
  }

  /** What the caller is told about `message`, which turned `a` into `b`. */
  ghost predicate Reports(a: NetView, message: MetaMessage, b: NetView, r: StateMutation, now: int)
    requires a.graph.Valid()
  {
    match message
    case TerminateRequest => r == TerminateRequested
    case Ping => r == PingReceived
    case Pong => r == PongReceived
    case AddSubnet(m) => r == AddedReport(a, m)
    case DeleteSubnet(m) => r == SubnetDeleted(Found(a.subnets, m.subnet.WithOwner(m.owner)))
    case AddEdge(m) =>
      && r.EdgeAdded? && r.edge == ChangeBy(a.graph.edges, EdgeOfMessage(m))
      && r.createdNodes == Created(a.graph.nodes, m)
      && RecomputedReporting(WithEdge(a.graph, m), b.graph, r.addReachability, a.experimental, now)
    case DeleteEdge(m) =>
      && r.EdgeDeleted? && r.removedEdge == EdgeUnder(a.graph.edges, EdgeKey(m.from, m.to))
      && RecomputedReporting(WithoutEdge(a.graph, m.from, m.to), b.graph, r.deleteReachability, a.experimental, now)
    case KeyChanged(_, origin) => r == if origin in a.graph.nodes then KeyInvalidated(origin) else NoChange
    case UdpInfo(from, to, endpoint) => r == UdpReport(a.graph, from, to, endpoint)
    case MtuInfo(from, to, mtu) => r == MtuReport(a.graph.nodes, b.graph.nodes, from, to, mtu)
    case _ => r == NoChange
  }

  function AddedReport(a: NetView, m: SubnetMessage): StateMutation {
    var x := m.subnet.WithOwner(m.owner);
    SubnetAdded(x, m.owner, Position(a.subnets, x) == |a.subnets|, m.owner !in a.graph.nodes)
  }

  /** The first entry that compares equal. */
  function Found(s: seq<Subnet>, x: Subnet): Option<Subnet> {
    if Position(s, x) < |s| then Some(s[Position(s, x)]) else None
  }

  /** The ends of the edge that were missing. */
  function Created(nodes: Nodes, m: AddEdgeMessage): seq<Name> {
    (if m.edge.from in nodes then [] else [m.edge.from])
      + (if m.edge.to in nodes || m.edge.to == m.edge.from then [] else [m.edge.to])
  }

  function EdgeUnder(edges: Edges, k: EdgeKey): Option<Edge> { if k in edges then Some(edges[k]) else None }

  function UdpReport(g: GraphView, from: Name, to: Name, endpoint: Endpoint): StateMutation {
    if from == g.myself || from !in g.nodes then NoChange
    else UdpLearned(from, to, endpoint, g.nodes[from].link.udpAddress != Some(endpoint))
  }

  function MtuReport(nodes: Nodes, later: Nodes, from: Name, to: Name, mtu: nat): StateMutation {
    if from !in nodes || from !in later then NoChange
    else MtuLearned(from, to, mtu, nodes[from].link.mtu, later[from].link.mtu != nodes[from].link.mtu)
  }

  datatype PurgeOptions = PurgeOptions(strictSubnets: bool, autoconnect: bool)

  datatype PurgeResult = PurgeResult(removedNodes: seq<Name>, removedEdges: seq<Edge>, removedSubnets: seq<Subnet>,
                                     reachability: ReachabilityChanges)

  function UnreachableNames(g: GraphView): seq<Name> {
    SortNames(set n | n in g.nodes && n != g.myself && !g.nodes[n].status.reachable)
  }

  /** The edges that leave the nodes of `names`, node by node in key order. */
  function EdgesLeaving(edges: Edges, names: seq<Name>): seq<Edge> {
    if names == [] then [] else EdgesLeaving(edges, names[..|names| - 1]) + OutEdges(edges, names[|names| - 1])
  }

  /** The entries of the owners in `names`, owner by owner in table order. */
  function EntriesOf(s: seq<Subnet>, names: seq<Name>): seq<Subnet> {
    if names == [] then [] else EntriesOf(s, names[..|names| - 1]) + Select(s, names[|names| - 1], true)
  }

  ghost function EdgesWithout(edges: Edges, names: seq<Name>): Edges {
    map k | k in edges && k.from !in names :: edges[k]
  }

  ghost function Disowned(s: seq<Subnet>, names: seq<Name>): seq<Subnet> {
    if names == [] then s else Select(Disowned(s, names[..|names| - 1]), names[|names| - 1], false)
  }

  /** Nothing refers to the node any more: no edge leads to it, and no claimed subnet or automatic connection keeps
      it. */
  ghost predicate Removable(options: PurgeOptions, subnets: seq<Subnet>, edges: Edges, n: Name) {
    && !options.autoconnect
    && (!options.strictSubnets || !Claims(subnets, n))
    && !(exists k :: k in edges && k.to == n)
  }

  ghost function NodesWithout(nodes: Nodes, names: seq<Name>, options: PurgeOptions, subnets: seq<Subnet>,
      edges: Edges): Nodes {
    map n | n in nodes && !(n in names && Removable(options, subnets, edges, n)) :: nodes[n]
  }

  ghost function PurgedSubnets(a: NetView, options: PurgeOptions): seq<Subnet> {
    if options.strictSubnets then a.subnets else Disowned(a.subnets, UnreachableNames(a.graph))
  }

  /** The graph a purge leaves behind before routes are recomputed. */
  ghost function PurgedGraph(a: NetView, options: PurgeOptions, mst: set<EdgeKey>): GraphView {
    var names := UnreachableNames(a.graph);
    var edges := EdgesWithout(a.graph.edges, names);
    GraphView(a.graph.myself, NodesWithout(a.graph.nodes, names, options, PurgedSubnets(a, options), edges), edges, mst)
  }

  ghost predicate Purged(a: NetView, b: NetView, options: PurgeOptions, changes: ReachabilityChanges, now: int)
    requires a.graph.Valid()
  {
    && b == a.(graph := b.graph, subnets := PurgedSubnets(a, options))
    && exists mst :: RecomputedReporting(PurgedGraph(a, options, mst), b.graph, changes, a.experimental, now)
  }

  class NetworkState {
    const graph: Graph
    const table: SubnetTable
    var experimental: bool

    ghost function View(): NetView
      reads this, graph, table
    {
      NetView(graph.View(), table.subnets, experimental)
    }

    ghost predicate Valid()
      reads this, graph, table
    {
      View().Valid()
    }

    constructor (myself: Name)
      ensures Valid() && fresh(graph) && fresh(table)
      ensures View() == Fresh(myself)
    {
      graph := new Graph(myself);
      table := new SubnetTable();
      experimental := true;
    }

    method RecomputeRoutesAt(now: int) returns (changes: ReachabilityChanges)
      requires Valid()
      modifies graph
      ensures Valid() && View() == old(View()).(graph := graph.View())
      ensures RecomputedReporting(old(graph.View()), graph.View(), changes, experimental, now)
    {
      hide SearchEnds, Kruskal, ReconcileAll, ReachableNames, ChangesOf;
      ghost var before := graph.View();
      graph.SsspBfs();
      ghost var searched := graph.nodes;
      changes := graph.ReconcileReachabilityAt(experimental, now);
      graph.MstKruskal();
      assert RecomputedThrough(before, graph.View(), searched, experimental, now);
    }

    method ApplyAddSubnet(m: SubnetMessage) returns (r: StateMutation)
      requires Valid()
      modifies graph, table
      ensures Valid() && Applied(old(View()), AddSubnet(m), View(), 0)
      ensures r == AddedReport(old(View()), m)
    {
      var created := graph.EnsureNode(m.owner);
      var subnet := m.subnet.WithOwner(m.owner);
      var inserted := table.AddUnique(subnet);
      r := SubnetAdded(subnet, m.owner, inserted, created);
    }

    method ApplyDeleteSubnet(m: SubnetMessage) returns (r: StateMutation)
      requires Valid()
      modifies table
      ensures Valid() && Applied(old(View()), DeleteSubnet(m), View(), 0)
      ensures r == SubnetDeleted(Found(old(table.subnets), m.subnet.WithOwner(m.owner)))
    {
      var removed := table.RemoveOwnerSubnet(m.owner, m.subnet);
      r := SubnetDeleted(removed);
    }

    /** Adding an edge never fails: both of its nodes have just been created if they were missing. */
    method ApplyAddEdge(m: AddEdgeMessage, now: int) returns (r: Result<StateMutation, GraphError>)
      requires Valid()
      modifies graph
      ensures Valid() && Applied(old(View()), AddEdge(m), View(), now)
      ensures r.Ok? && Reports(old(View()), AddEdge(m), View(), r.value, now)
    {
      hide RecomputedReporting, Recomputed, Sorted, ConsistentOwnership, EdgesWithin;
      ghost var before := graph.View();
      var created := [];
      var fromCreated := graph.EnsureNode(m.edge.from);
      if fromCreated {
        created := created + [m.edge.from];
      }
      var toCreated := graph.EnsureNode(m.edge.to);
      if toCreated {
        created := created + [m.edge.to];
      }
      var upserted := graph.UpsertEdge(EdgeOfMessage(m));
      assert graph.View() == WithEdge(before, m);
      var changes := RecomputeRoutesAt(now);
      ReportingIsRecomputed(WithEdge(before, m), graph.View(), changes, experimental, now);
      r := Ok(EdgeAdded(upserted.value, created, changes));
    }

    method ApplyDeleteEdge(m: DeleteEdgeMessage, now: int) returns (r: StateMutation)
      requires Valid()
      modifies graph
      ensures Valid() && Applied(old(View()), DeleteEdge(m), View(), now)
      ensures Reports(old(View()), DeleteEdge(m), View(), r, now)
    {
      hide SearchEnds, Kruskal, ReconcileAll, ReachableNames, ChangesOf;
      ghost var before := graph.View();
      var removed := graph.RemoveEdge(m.from, m.to);
      assert graph.View() == WithoutEdge(before, m.from, m.to);
      var changes := RecomputeRoutesAt(now);
      ReportingIsRecomputed(WithoutEdge(before, m.from, m.to), graph.View(), changes, experimental, now);
      r := EdgeDeleted(removed, changes);
    }

    method ApplyKeyChanged(origin: Name) returns (r: StateMutation)
      requires Valid()
      modifies graph
      ensures Valid() && View() == old(View()).(graph := graph.View())
      ensures graph.View() == old(graph.View()).(nodes := KeyForgotten(old(graph.nodes), origin))
      ensures r == if origin in old(graph.nodes) then KeyInvalidated(origin) else NoChange
    {
      if origin !in graph.nodes {
        return NoChange;
      }
      var node := graph.nodes[origin];
      if !node.status.session.sptps {
        graph.nodes := graph.nodes[origin :=
          node.(status := node.status.(session := node.status.session.(validKey := false)))];
      }
      return KeyInvalidated(origin);
    }

    method ApplyUdpInfo(from: Name, to: Name, endpoint: Endpoint) returns (r: StateMutation)
      requires Valid()
      modifies graph
      ensures Valid() && View() == old(View()).(graph := graph.View())
      ensures graph.View() == old(graph.View()).(nodes := UdpUpdated(old(graph.nodes), graph.myself, from, endpoint))
      ensures r == UdpReport(old(graph.View()), from, to, endpoint)
    {
      if from == graph.myself || from !in graph.nodes {
        return NoChange;
      }
      var node := graph.nodes[from];
      var changed := node.link.udpAddress != Some(endpoint);
      node := node.(status := node.status.(session := node.status.session.(udpConfirmed := false)),
                    link := LinkState(node.link.mtu, 0, DEFAULT_MTU, 0, Some(endpoint)));
      graph.nodes := graph.nodes[from := node];
      return UdpLearned(from, to, endpoint, changed);
    }

    method ApplyMtuInfo(from: Name, to: Name, mtu: nat) returns (r: StateMutation)
      requires Valid()
      modifies graph
      ensures Valid() && View() == old(View()).(graph := graph.View())
      ensures graph.View() == old(graph.View()).(nodes := MtuUpdated(old(graph.nodes), from, mtu))
      ensures r == MtuReport(old(graph.nodes), graph.nodes, from, to, mtu)
    {
      if from !in graph.nodes {
        return NoChange;
      }
      var node := graph.nodes[from];
      var previous := node.link.mtu;
      if node.link.mtu != mtu && node.link.minMtu != node.link.maxMtu {
        node := node.(link := node.link.(mtu := mtu));
        graph.nodes := graph.nodes[from := node];
      }
      return MtuLearned(from, to, mtu, previous, previous != node.link.mtu);
    }

    method ApplyMetaMessageAt(message: MetaMessage, now: int) returns (r: Result<StateMutation, GraphError>)
      requires Valid()
      modifies graph, table
      ensures Valid() && Applied(old(View()), message, View(), now)
      ensures r.Ok? && Reports(old(View()), message, View(), r.value, now)
    {
      hide Recomputed, RecomputedReporting, Sorted, ConsistentOwnership, AddedUnique, Removed, AddedReport, Found,
        UdpReport, MtuReport, KeyForgotten, UdpUpdated, MtuUpdated;
      match message
      case TerminateRequest => r := Ok(TerminateRequested);
      case Ping => r := Ok(PingReceived);
      case Pong => r := Ok(PongReceived);
      case AddSubnet(m) => { var s := ApplyAddSubnet(m); r := Ok(s); }
      case DeleteSubnet(m) => { var s := ApplyDeleteSubnet(m); r := Ok(s); }
      case AddEdge(m) => r := ApplyAddEdge(m, now);
      case DeleteEdge(m) => { var s := ApplyDeleteEdge(m, now); r := Ok(s); }
      case KeyChanged(_, origin) => { var s := ApplyKeyChanged(origin); r := Ok(s); }
      case UdpInfo(from, to, endpoint) => { var s := ApplyUdpInfo(from, to, endpoint); r := Ok(s); }
      case MtuInfo(from, to, mtu) => { var s := ApplyMtuInfo(from, to, mtu); r := Ok(s); }
      case _ => r := Ok(NoChange);
    }

    method PurgeUnreachableAt(options: PurgeOptions, now: int) returns (result: PurgeResult)
      requires Valid()
      modifies graph, table
      ensures Valid() && Purged(old(View()), View(), options, result.reachability, now)
      ensures result.removedEdges == EdgesLeaving(old(graph.edges), UnreachableNames(old(graph.View())))
      ensures result.removedSubnets ==
                if options.strictSubnets then [] else EntriesOf(old(table.subnets), UnreachableNames(old(graph.View())))
      ensures multiset(result.removedSubnets) + multiset(table.subnets) == multiset(old(table.subnets))
      ensures forall n :: n in result.removedNodes <==> n in old(graph.nodes) && n !in graph.nodes
      ensures Ascending(result.removedNodes, NameLess)
    {
      hide RecomputedReporting, UnreachableNames, EdgesWithout, Disowned, NodesWithout, Claims, Sorted, Ascending,
        ConsistentOwnership, NameLess;
      ghost var before := View();
      var names := UnreachableNames(GraphView(graph.myself, graph.nodes, graph.edges, graph.mstEdges));
      UnreachableAre(graph.View());
      EdgesWithoutLeave(graph.edges, names);
      var subnets, edges := DropClaims(names, options.strictSubnets);
      var nodes := DropNodes(names, options);
      ghost var purged := PurgedGraph(before, options, graph.mstEdges);
      assert graph.View() == purged;
      NodesWithoutAre(before.graph.nodes, names, options, table.subnets, graph.edges);
      var changes := RecomputeRoutesAt(now);
      ReportingKeepsKeys(purged, graph.View(), changes, experimental, now);
      result := PurgeResult(nodes, edges, subnets, changes);
    }

    /** First pass: the subnets (unless they are kept strictly) and the outgoing edges of each unreachable node. */
    method DropClaims(names: seq<Name>, strict: bool) returns (removedSubnets: seq<Subnet>, removedEdges: seq<Edge>)
      requires Valid() && Ascending(names, NameLess)
      modifies graph, table
      ensures Valid() && experimental == old(experimental)
      ensures graph.nodes == old(graph.nodes) && graph.edges == EdgesWithout(old(graph.edges), names)
      ensures table.subnets == if strict then old(table.subnets) else Disowned(old(table.subnets), names)
      ensures removedEdges == EdgesLeaving(old(graph.edges), names)
      ensures removedSubnets == if strict then [] else EntriesOf(old(table.subnets), names)
      ensures multiset(removedSubnets) + multiset(table.subnets) == multiset(old(table.subnets))
    {
      hide Select, OutEdges, EdgesWithout, Sorted, ConsistentOwnership, Ascending, NameLess;
      removedSubnets, removedEdges := [], [];
      assert names[..0] == [];
      NoneFewer(graph.edges);
      for i := 0 to |names|
        invariant Valid()
        invariant graph.nodes == old(graph.nodes) && graph.edges == EdgesWithout(old(graph.edges), names[..i])
        invariant table.subnets == if strict then old(table.subnets) else Disowned(old(table.subnets), names[..i])
        invariant removedEdges == EdgesLeaving(old(graph.edges), names[..i])
        invariant removedSubnets == if strict then [] else EntriesOf(old(table.subnets), names[..i])
        invariant multiset(removedSubnets) + multiset(table.subnets) == multiset(old(table.subnets))
      {
        assert names[..i + 1] == names[..i] + [names[i]];
        assert names[..i + 1][..i] == names[..i];
        NoNames();
        LaterName(names, i, []);
        if !strict {
          SelectSplits(table.subnets, names[i]);
          OthersKeepEntries(old(table.subnets), names[..i], names[i]);
          var dropped := table.RemoveOwner(names[i]);
          removedSubnets := removedSubnets + dropped;
        }
        OneFewer(old(graph.edges), names, i);
        OthersKeepEdges(old(graph.edges), names[..i], names[i]);
        var edges := graph.RemoveEdgesFrom(names[i]);
        removedEdges := removedEdges + edges;
      }
      assert names[..|names|] == names;
    }

    /** Second pass: the nodes nothing refers to any more. Edges that leave `names` are gone already. */
    method DropNodes(names: seq<Name>, options: PurgeOptions) returns (removed: seq<Name>)
      requires Valid() && graph.myself !in names && (forall n :: n in names ==> n in graph.nodes)
               && Ascending(names, NameLess)
      requires forall k :: k in graph.edges ==> k.from !in names
      modifies graph
      ensures Valid() && graph.edges == old(graph.edges)
      ensures graph.nodes == NodesWithout(old(graph.nodes), names, options, table.subnets, graph.edges)
      ensures forall n :: n in removed <==> n in names && Removable(options, table.subnets, graph.edges, n)
      ensures Ascending(removed, NameLess)
    {
      hide Claims, Ascending, NameLess;
      removed := [];
      NoNames();
      ghost var nodes, edges := graph.nodes, graph.edges;
      for i := 0 to |names|
        invariant Valid() && graph.edges == edges
        invariant graph.nodes == NodesWithout(nodes, names[..i], options, table.subnets, edges)
        invariant forall n :: n in removed <==> n in names[..i] && Removable(options, table.subnets, edges, n)
        invariant Ascending(removed, NameLess)
      {
        assert names[..i + 1] == names[..i] + [names[i]];
        LaterName(names, i, removed);
        assert names[i] in names;
        var claimed := table.HasSubnetsOf(names[i]);
        var targeted := graph.HasEdgeTo(names[i]);
        if !options.autoconnect && (!options.strictSubnets || !claimed) && !targeted {
          var node := graph.RemoveNode(names[i]);
          assert graph.edges == edges;
          if node.Some? {
            removed := removed + [node.value.name];
          }
        }
      }
      assert names[..|names|] == names;
    }
  }

  /** What the nodes before gave up does not concern the edges of another. */
  lemma OthersKeepEdges(edges: Edges, names: seq<Name>, n: Name)
    requires n !in names
    ensures OutEdges(EdgesWithout(edges, names), n) == OutEdges(edges, n)
  {
    var rest := EdgesWithout(edges, names);
    assert (set k | k in rest && k.from == n :: k.to) == (set k | k in edges && k.from == n :: k.to);
    assert forall k: EdgeKey :: k.from == n ==> (k in rest <==> k in edges);
  }

  lemma {:induction false} OthersKeepEntries(s: seq<Subnet>, names: seq<Name>, n: Name)
    requires n !in names
    ensures Select(Disowned(s, names), n, true) == Select(s, n, true)
  {
    if names == [] {
    } else {
      var rest := names[..|names| - 1];
      OthersKeepEntries(s, rest, n);
      SelectTwice(Disowned(s, rest), names[|names| - 1], n);
    }
  }

  lemma {:induction false} SelectTwice(s: seq<Subnet>, m: Name, n: Name)
    requires m != n
    ensures Select(Select(s, m, false), n, true) == Select(s, n, true)
  {
    if s == [] {
    } else {
      var t, last := s[..|s| - 1], s[|s| - 1];
      SelectTwice(t, m, n);
      assert s == t + [last];
      SelectLast(t, last, m, false);
      SelectLast(t, last, n, true);
      SelectLast(Select(t, m, false), last, n, true);
      assert Select(t, m, false) + [] == Select(t, m, false) && Select(t, n, true) + [] == Select(t, n, true);
      hide Select;
    }
  }

  lemma NoneFewer(edges: Edges)
    ensures EdgesWithout(edges, []) == edges
  {
  }

  lemma OneFewer(edges: Edges, names: seq<Name>, i: nat)
    requires i < |names|
    ensures var before := EdgesWithout(edges, names[..i]);
            EdgesWithout(edges, names[..i + 1]) == map k | k in before && k.from != names[i] :: before[k]
  {
    assert names[..i + 1] == names[..i] + [names[i]];
  }

  lemma UnreachableAre(g: GraphView)
    ensures var names := UnreachableNames(g);
            && (forall n :: n in names <==> n in g.nodes && n != g.myself && !g.nodes[n].status.reachable)
            && Ascending(names, NameLess)
  {
  }

  lemma EdgesWithoutLeave(edges: Edges, names: seq<Name>)
    ensures forall k :: k in EdgesWithout(edges, names) ==> k.from !in names
  {
  }

  lemma NodesWithoutAre(nodes: Nodes, names: seq<Name>, options: PurgeOptions, subnets: seq<Subnet>, edges: Edges)
    ensures forall n :: n in NodesWithout(nodes, names, options, subnets, edges)
              <==> n in nodes && !(n in names && Removable(options, subnets, edges, n))
  {
  }

  lemma ReportingKeepsKeys(before: GraphView, after: GraphView, changes: ReachabilityChanges, experimental: bool,
      now: int)
    requires before.Valid() && RecomputedReporting(before, after, changes, experimental, now)
    ensures after.nodes.Keys == before.nodes.Keys
  {
    ReportingIsRecomputed(before, after, changes, experimental, now);
    RecomputeIsSound(before, after, experimental, now);
  }
}
