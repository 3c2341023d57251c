/** Over any life of a node, from its first recomputation on, its routes, reachability and tree are what its edges
    imply, whatever messages and purges follow. */
module Upkeep {
  import opened Basics
  import opened Names
  import opened Topology
  import opened Subnets
  import opened Messages
  import opened Routes
  import opened Prim
  import opened Agreement
  import opened Graph
  import opened Recompute
  import opened State
  import opened Purge
  import Coordinator
  import Framing
  import Sync

  datatype Change =
    | Message(message: MetaMessage, at: int)
    | Purging(options: PurgeOptions, at: int)
    | Recomputing(at: int)

  /** The changes that end with routes being recomputed. */
  predicate Recomputes(change: Change) {
    !change.Message? || change.message.AddEdge? || change.message.DeleteEdge?
  }

  ghost predicate Becomes(a: NetView, change: Change, b: NetView)
    requires a.graph.Valid()
  {
    match change
    case Message(m, now) => Applied(a, m, b, now)
    case Purging(options, now) => exists changes :: Purged(a, b, options, changes, now)
    case Recomputing(now) => b == a.(graph := b.graph) && Recomputed(a.graph, b.graph, a.experimental, now)
  }

  /** The states of a node that starts alone and undergoes the changes. */
  ghost predicate IsLife(me: Name, states: seq<NetView>, changes: seq<Change>) {
    && |states| == |changes| + 1 && states[0] == Fresh(me)
    && forall i :: 0 <= i < |changes| ==> states[i].graph.Valid() && Becomes(states[i], changes[i], states[i + 1])
  }

  lemma EdgeChangesAreValid(g: GraphView)
    requires g.Valid()
    ensures forall m :: WithEdge(g, m).Valid()
    ensures forall from, to :: WithoutEdge(g, from, to).Valid()
  {
  }

  /** Whatever was there before, a change that recomputes routes leaves the graph up to date. */
  lemma RecomputingIsUpToDate(a: NetView, change: Change, b: NetView)
    requires a.graph.Valid() && Becomes(a, change, b) && Recomputes(change)
    ensures UpToDate(b.graph)
  {
    hide Recomputed, RecomputedReporting, UpToDate, PurgedGraph;
    EdgeChangesAreValid(a.graph);
    match change
    case Message(m, now) =>
      var before := if m.AddEdge? then WithEdge(a.graph, m.addedEdge)
        else WithoutEdge(a.graph, m.deletedEdge.from, m.deletedEdge.to);
      RecomputedIsUpToDate(before, b.graph, a.experimental, now);
    case Purging(options, now) =>
      var changes :| Purged(a, b, options, changes, now);
      var mst := PurgedThrough(a, b, options, changes, now);
      ReportingIsRecomputed(PurgedGraph(a, options, mst), b.graph, changes, a.experimental, now);
      RecomputedIsUpToDate(PurgedGraph(a, options, mst), b.graph, a.experimental, now);
    case Recomputing(now) => RecomputedIsUpToDate(a.graph, b.graph, a.experimental, now);
  }

  /** Only fields the search does not look at differ, and nodes that are new are not reachable. */
  ghost predicate Quiet(nodes: Nodes, later: Nodes) {
    && nodes.Keys <= later.Keys
    && (forall n :: n in nodes ==>
          && later[n].route == nodes[n].route && later[n].options == nodes[n].options && later[n].name == nodes[n].name
          && later[n].status == nodes[n].status.(session := later[n].status.session))
    && (forall n :: n in later && n !in nodes ==> later[n] == NewNode(n))
  }

  lemma QuietMessages(nodes: Nodes, myself: Name)
    ensures forall n :: Quiet(nodes, Ensured(nodes, n)) && Quiet(nodes, KeyForgotten(nodes, n))
    ensures forall n, endpoint :: Quiet(nodes, UdpUpdated(nodes, myself, n, endpoint))
    ensures forall n, mtu :: Quiet(nodes, MtuUpdated(nodes, n, mtu))
    ensures Quiet(nodes, nodes)
  {
  }

  lemma QuietKeepsRouting(g: GraphView, nodes: Nodes)
    requires g.Valid() && Quiet(g.nodes, nodes)
    ensures g.(nodes := nodes).Valid() && SameRouting(g, g.(nodes := nodes))
  {
  }

  /** Any other change leaves what the search looks at as it was. */
  lemma OtherChangesKeepRouting(a: NetView, change: Change, b: NetView)
    requires a.graph.Valid() && Becomes(a, change, b) && !Recomputes(change)
    ensures b.graph.Valid() && SameRouting(a.graph, b.graph)
  {
    QuietMessages(a.graph.nodes, a.graph.myself);
    hide Quiet, Ensured, KeyForgotten, UdpUpdated, MtuUpdated, AddedUnique, Removed, Recomputed;
    assert b.graph == a.graph.(nodes := b.graph.nodes) && Quiet(a.graph.nodes, b.graph.nodes);
    QuietKeepsRouting(a.graph, b.graph.nodes);
  }

  lemma ChangeKeepsUpToDate(a: NetView, change: Change, b: NetView)
    requires UpToDate(a.graph) && a.graph.Valid() && Becomes(a, change, b)
    ensures UpToDate(b.graph)
  {
    hide UpToDate, Becomes;
    if Recomputes(change) {
      RecomputingIsUpToDate(a, change, b);
    } else {
      OtherChangesKeepRouting(a, change, b);
      SameRoutingKeepsUpToDate(a.graph, b.graph);
    }
  }

  lemma {:induction false} AloneUntilRecomputed(me: Name, states: seq<NetView>, changes: seq<Change>, k: nat)
    requires IsLife(me, states, changes) && k <= |changes| && forall i :: 0 <= i < k ==> !Recomputes(changes[i])
    ensures me in states[k].graph.nodes && !states[k].graph.nodes[me].status.reachable && states[k].graph.myself == me
  {
    hide Becomes;
    if k == 0 {
    } else {
      AloneUntilRecomputed(me, states, changes, k - 1);
      OtherChangesKeepRouting(states[k - 1], changes[k - 1], states[k]);
    }
  }

  lemma {:induction false} StaysUpToDate(me: Name, states: seq<NetView>, changes: seq<Change>, i: nat, k: nat)
    requires IsLife(me, states, changes) && i < k <= |changes| && Recomputes(changes[i])
    ensures UpToDate(states[k].graph)
    decreases k
  {
    hide Becomes, UpToDate;
    if i == k - 1 {
      RecomputingIsUpToDate(states[i], changes[i], states[k]);
    } else {
      StaysUpToDate(me, states, changes, i, k - 1);
      ChangeKeepsUpToDate(states[k - 1], changes[k - 1], states[k]);
    }
  }

  /** At every point of a life the graph is up to date if and only if routes have been recomputed at least once. */
  lemma UpToDateOnceRecomputed(me: Name, states: seq<NetView>, changes: seq<Change>, k: nat)
    requires IsLife(me, states, changes) && k <= |changes|
    ensures UpToDate(states[k].graph) <==> exists i :: 0 <= i < k && Recomputes(changes[i])
  {
    hide UpToDate, Recomputes, Becomes;
    if i :| 0 <= i < k && Recomputes(changes[i]) {
      StaysUpToDate(me, states, changes, i, k);
    } else {
      AloneUntilRecomputed(me, states, changes, k);
      if UpToDate(states[k].graph) { MyselfIsReachable(states[k].graph); }
    }
  }

  // What else holds throughout a life.

  /** A valid state whose table lists no owned subnet twice. */
  ghost predicate Tidy(a: NetView) { a.Valid() && DuplicateFree(a.subnets) }

  lemma AddingIsTidy(s: seq<Subnet>, x: Subnet)
    requires DuplicateFree(s)
    ensures DuplicateFree(AddedUnique(s, x))
  {
    if Position(s, x) == |s| {
      forall y | y in s ensures CompareTinc(y, x) != Equal && CompareTinc(x, y) != Equal {
        CompareEqual(x, y);
        CompareEqual(y, x);
      }
      InsertKeepsDuplicateFree(s, x);
    }
    hide CompareTinc, Insert;
  }

  lemma RemovingIsTidy(s: seq<Subnet>, x: Subnet)
    requires DuplicateFree(s)
    ensures DuplicateFree(Removed(s, x))
  {
    hide CompareTinc;
  }

  lemma {:induction false} DisowningIsTidy(s: seq<Subnet>, names: seq<Name>)
    requires Sorted(s) && ConsistentOwnership(s) && DuplicateFree(s)
    ensures var r := Disowned(s, names); Sorted(r) && ConsistentOwnership(r) && DuplicateFree(r)
  {
    hide Sorted, ConsistentOwnership, DuplicateFree;
    if names == [] {
    } else {
      var r, n := Disowned(s, names[..|names| - 1]), names[|names| - 1];
      DisowningIsTidy(s, names[..|names| - 1]);
      SelectSorted(r, n, false);
      SubsetConsistent(r, Select(r, n, false));
      SelectKeepsDuplicateFree(r, n, false);
    }
  }

  lemma TableStaysTidy(a: NetView, change: Change, b: NetView)
    requires Tidy(a) && Becomes(a, change, b)
    ensures Sorted(b.subnets) && ConsistentOwnership(b.subnets) && DuplicateFree(b.subnets)
  {
    hide Sorted, ConsistentOwnership, DuplicateFree, AddedUnique, Removed, Recomputed, RecomputedReporting, Disowned;
    match change
    case Message(AddSubnet(m), _) =>
      Coordinator.AddedKeepsTable(a.subnets, m.subnet.WithOwner(m.owner));
      AddingIsTidy(a.subnets, m.subnet.WithOwner(m.owner));
    case Message(DeleteSubnet(m), _) =>
      Coordinator.RemovedKeepsTable(a.subnets, m.subnet.WithOwner(m.owner));
      RemovingIsTidy(a.subnets, m.subnet.WithOwner(m.owner));
    case Message(_, _) =>
    case Purging(_, _) => DisowningIsTidy(a.subnets, UnreachableNames(a.graph));
    case Recomputing(_) =>
  }

  lemma ChangeKeepsTidy(a: NetView, change: Change, b: NetView)
    requires Tidy(a) && Becomes(a, change, b)
    ensures Tidy(b)
  {
    TableStaysTidy(a, change, b);
    hide Sorted, ConsistentOwnership, DuplicateFree, Becomes, UpToDate;
    if Recomputes(change) {
      RecomputingIsUpToDate(a, change, b);
      ValidWhenUpToDate(b.graph);
    } else {
      OtherChangesKeepRouting(a, change, b);
    }
  }

  /** At every point of a life the state is valid, and its table lists no owned subnet twice. */
  lemma {:induction false} LifeIsTidy(me: Name, states: seq<NetView>, changes: seq<Change>, k: nat)
    requires IsLife(me, states, changes) && k <= |changes|
    ensures Tidy(states[k])
  {
    hide Becomes;
    if k == 0 {
    } else {
      LifeIsTidy(me, states, changes, k - 1);
      ChangeKeepsTidy(states[k - 1], changes[k - 1], states[k]);
    }
  }

  /** So a life can always go on with any change. */
  lemma LifeGoesOn(me: Name, states: seq<NetView>, changes: seq<Change>, change: Change, b: NetView)
    requires IsLife(me, states, changes)
    ensures states[|changes|].graph.Valid()
    ensures Becomes(states[|changes|], change, b) ==> IsLife(me, states + [b], changes + [change])
  {
    hide Becomes;
    LifeIsTidy(me, states, changes, |changes|);
  }

  /** Two nodes at any point of their lives: one that has recomputed its routes and knows only edges with addresses, and
      a fresh one it can reach and tells everything it knows. They agree on edges, reachable nodes and broadcast tree,
      and the fresh one holds exactly the owned subnets of the other, up to when they expire. */
  lemma ToldNodesAgree(me: Name, states: seq<NetView>, changes: seq<Change>, k: nat, nonce: u32, peer: Name, b: NetView,
      now: int)
    requires IsLife(me, states, changes) && k <= |changes| && exists i :: 0 <= i < k && Recomputes(changes[i])
    requires var a := states[k];
             && (forall e :: e in a.graph.edges ==> a.graph.edges[e].address.Some?)
             && peer in ReachableNames(a.graph.nodes) && peer != a.graph.myself
    requires Sync.AppliedAll(Fresh(peer), Coordinator.SyncMessages(states[k], nonce).0, b, now)
    ensures var a := states[k];
            && b.graph.edges == a.graph.edges && b.subnets == Sync.OwnedTravelled(a.subnets)
            && ReachableNames(b.graph.nodes) == ReachableNames(a.graph.nodes) && b.graph.mst == a.graph.mst
  {
    LifeHasStates(me, states, changes);
    hide *;
    LifeIsTidy(me, states, changes, k);
    TidyMeans(states[k]);
    UpToDateOnceRecomputed(me, states, changes, k);
    Sync.SyncReproduces(states[k], nonce, peer, b, now);
    Sync.SyncedNodesAgree(states[k], nonce, peer, b, now);
  }

  lemma LifeHasStates(me: Name, states: seq<NetView>, changes: seq<Change>)
    requires IsLife(me, states, changes)
    ensures |states| == |changes| + 1
  {
  }

  lemma TidyMeans(a: NetView)
    requires Tidy(a)
    ensures a.Valid() && DuplicateFree(a.subnets)
  {
  }

  /** So it is with every event the coordinator handles: none puts the graph out of date, and activating a connection
      brings it up to date. */
  lemma HandledKeepsUpToDate(mode: Coordinator.Mode, a: Coordinator.Local, h: Coordinator.Handle, event: Framing.Event,
      b: Coordinator.Local, h': Coordinator.Handle, out: Coordinator.NetStep, now: int)
    requires a.Valid() && Coordinator.Fits(event) && Coordinator.Handled(mode, a, h, event, b, h', out, now)
    requires UpToDate(a.net.graph) || Coordinator.IsActivation(event)
    ensures UpToDate(b.net.graph)
  {
    hide UpToDate, Applied, Coordinator.SyncMessages, Coordinator.Correction;
    if Coordinator.IsActivation(event) {
      var peer := Name(event.event.peer);
      var m := Coordinator.ConnectionEdge(a.net.graph.myself, h, peer, event.event.port, event.event.weight,
        event.event.options);
      RecomputingIsUpToDate(a.net, Message(AddEdge(m), now), b.net);
    } else if b.net != a.net {
      ChangeKeepsUpToDate(a.net, Message(event.message, now), b.net);
    }
  }
}
