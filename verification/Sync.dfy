/** A new peer that applies everything it is told ends up with the same subnets and edges, and therefore with the same
    reachable nodes and the same broadcast tree. */
module Sync {
  import opened Basics
  import opened Names
  import Order
  import opened Topology
  import opened Subnets
  import opened Messages
  import opened Trees
  import opened Prim
  import opened Routes
  import opened Graph
  import opened Recompute
  import opened State
  import opened Coordinator

  /** The text of a message has no room for when a subnet expires. */
  function OnWire(m: MetaMessage): MetaMessage {
    match m
    case AddSubnet(s) => AddSubnet(s.(subnet := s.subnet.(expires := None)))
    case _ => m
  }

  ghost predicate AppliedAll(a: NetView, ms: seq<MetaMessage>, b: NetView, now: int)
    decreases |ms|, 0
  {
    if ms == [] then b == a else exists c :: AppliedThrough(a, ms, c, b, now)
  }

  ghost predicate AppliedThrough(a: NetView, ms: seq<MetaMessage>, c: NetView, b: NetView, now: int)
    requires ms != []
    decreases |ms| - 1, 1
  {
    AppliedAll(a, ms[..|ms| - 1], c, now) && c.Valid() && Applied(c, OnWire(ms[|ms| - 1]), b, now)
  }

  lemma FreshIsValid(me: Name)
    ensures Fresh(me).Valid()
  {
  }

  lemma AppliedAllIsValid(a: NetView, ms: seq<MetaMessage>, b: NetView, now: int)
    requires a.Valid() && AppliedAll(a, ms, b, now)
    ensures b.Valid()
  {
    hide Applied;
    if ms != [] {
      var c :| AppliedThrough(a, ms, c, b, now);
      AppliedKeepsValid(Local(c, 0), OnWire(ms[|ms| - 1]), b, now);
    }
  }

  lemma {:induction false} AppliedSplits(a: NetView, ms: seq<MetaMessage>, ns: seq<MetaMessage>, b: NetView, now: int)
    returns (c: NetView)
    requires a.Valid() && AppliedAll(a, ms + ns, b, now) && b.Valid()
    ensures AppliedAll(a, ms, c, now) && c.Valid() && AppliedAll(c, ns, b, now)
    decreases |ns|
  {
    hide Applied;
    if ns == [] {
      assert ms + ns == ms;
      c := b;
    } else {
      var d :| AppliedThrough(a, ms + ns, d, b, now);
      var rest := ns[..|ns| - 1];
      assert (ms + ns)[..|ms + ns| - 1] == ms + rest;
      c := AppliedSplits(a, ms, rest, d, now);
      assert AppliedThrough(c, ns, d, b, now);
    }
  }

  // Subnets.

  function Travelled(s: Subnet): Subnet { s.(expires := None) }

  /** The owned entries, as they travel. */
  function OwnedTravelled(s: seq<Subnet>): seq<Subnet> {
    if s == [] then []
    else OwnedTravelled(s[..|s| - 1]) + (if s[|s| - 1].owner.Some? then [Travelled(s[|s| - 1])] else [])
  }

  lemma TravelledCompares(a: Subnet, b: Subnet)
    ensures CompareTinc(Travelled(a), Travelled(b)) == CompareTinc(a, b)
  {
  }

  lemma {:induction false} OwnedAre(s: seq<Subnet>)
    ensures forall y :: y in OwnedTravelled(s) ==> exists i :: 0 <= i < |s| && s[i].owner.Some? && y == Travelled(s[i])
  {
    if s == [] {
    } else {
      var t := s[..|s| - 1];
      OwnedAre(t);
      forall y | y in OwnedTravelled(s) ensures exists i :: 0 <= i < |s| && s[i].owner.Some? && y == Travelled(s[i]) {
        if y in OwnedTravelled(t) {
          var i :| 0 <= i < |t| && t[i].owner.Some? && y == Travelled(t[i]);
          assert s[i] == t[i];
        } else {
          assert s[|s| - 1].owner.Some? && y == Travelled(s[|s| - 1]);
        }
      }
    }
  }

  lemma OwnedIsLess(s: seq<Subnet>, y: Subnet)
    requires s != [] && Sorted(s) && DuplicateFree(s) && s[|s| - 1].owner.Some? && y in OwnedTravelled(s[..|s| - 1])
    ensures CompareTinc(y, Travelled(s[|s| - 1])) == Less
  {
    hide CompareTinc, OwnedTravelled;
    OwnedAre(s[..|s| - 1]);
    var i :| 0 <= i < |s| - 1 && s[..|s| - 1][i].owner.Some? && y == Travelled(s[..|s| - 1][i]);
    TravelledCompares(s[i], s[|s| - 1]);
    assert CompareTinc(s[i], s[|s| - 1]) != Greater && CompareTinc(s[i], s[|s| - 1]) != Equal;
  }

  /** The next owned entry goes to the end of those before it. */
  lemma NextIsAppended(s: seq<Subnet>)
    requires s != [] && Sorted(s) && DuplicateFree(s) && s[|s| - 1].owner.Some?
    ensures AddedUnique(OwnedTravelled(s[..|s| - 1]), Travelled(s[|s| - 1])) == OwnedTravelled(s)
  {
    hide CompareTinc, Sorted, DuplicateFree, Travelled;
    var t, x := OwnedTravelled(s[..|s| - 1]), s[|s| - 1];
    forall y | y in t ensures CompareTinc(y, Travelled(x)) == Less { OwnedIsLess(s, y); }
    assert forall i :: 0 <= i < |t| ==> t[i] in t && CompareTinc(t[i], Travelled(x)) == Less;
  }

  lemma {:induction false} SubnetsArrive(s: seq<Subnet>, nonce: u32, me: Name, b: NetView, now: int)
    requires Sorted(s) && DuplicateFree(s)
    requires AppliedAll(Fresh(me), SubnetMessages(s, nonce).0, b, now)
    ensures b.subnets == OwnedTravelled(s) && b.graph.myself == me && b.graph.edges == map[]
  {
    if s == [] {
    } else {
      var t, x := s[..|s| - 1], s[|s| - 1];
      PrefixIsSorted(s);
      hide Sorted, DuplicateFree, AddedUnique, CompareTinc;
      var ms := SubnetMessages(s, nonce).0;
      if x.owner.Some? {
        var before := SubnetMessages(t, nonce).0;
        assert ms == before + [ms[|ms| - 1]] && ms[..|ms| - 1] == before;
        var c :| AppliedThrough(Fresh(me), ms, c, b, now);
        SubnetsArrive(t, nonce, me, c, now);
        NextIsAppended(s);
      } else {
        SubnetsArrive(t, nonce, me, b, now);
      }
    }
  }

  lemma PrefixIsSorted(s: seq<Subnet>)
    requires s != [] && Sorted(s) && DuplicateFree(s)
    ensures Sorted(s[..|s| - 1]) && DuplicateFree(s[..|s| - 1])
  {
    hide CompareTinc;
  }

  // Edges.

  function AddressedOf(es: seq<Edge>): Edges {
    if es == [] then map[]
    else
      var e := es[|es| - 1];
      if e.address.Some? then AddressedOf(es[..|es| - 1])[e.Key() := e] else AddressedOf(es[..|es| - 1])
  }

  lemma {:induction false} EdgesArrive(es: seq<Edge>, nonce: u32, a: NetView, b: NetView, now: int)
    requires a.Valid() && AppliedAll(a, EdgeMessages(es, nonce).0, b, now) && a.graph.edges == map[]
    ensures b.subnets == a.subnets && b.graph.myself == a.graph.myself && b.graph.edges == AddressedOf(es)
  {
    if es == [] {
    } else {
      hide Recomputed, Sorted, ConsistentOwnership;
      var t, e := es[..|es| - 1], es[|es| - 1];
      var ms := EdgeMessages(es, nonce).0;
      if e.address.Some? {
        var before := EdgeMessages(t, nonce).0;
        assert ms == before + [ms[|ms| - 1]] && ms[..|ms| - 1] == before;
        var c :| AppliedThrough(a, ms, c, b, now);
        EdgesArrive(t, nonce, a, c, now);
        var m := ms[|ms| - 1].addedEdge;
        assert EdgeOfMessage(m) == e;
        RecomputedKeepsEdges(WithEdge(c.graph, m), b.graph, c.experimental, now);
      } else {
        EdgesArrive(t, nonce, a, b, now);
      }
    }
  }

  lemma {:induction false} AddressedAre(es: seq<Edge>)
    requires forall i, j :: 0 <= i < j < |es| ==> es[i].Key() != es[j].Key()
    ensures forall k :: k in AddressedOf(es) <==> exists i :: 0 <= i < |es| && es[i].Key() == k && es[i].address.Some?
    ensures forall i :: 0 <= i < |es| && es[i].address.Some? ==>
              es[i].Key() in AddressedOf(es) && AddressedOf(es)[es[i].Key()] == es[i]
  {
    if es == [] {
    } else {
      var t, e := es[..|es| - 1], es[|es| - 1];
      AddressedAre(t);
      forall k ensures k in AddressedOf(es) <==> exists i :: 0 <= i < |es| && es[i].Key() == k && es[i].address.Some? {
        if k in AddressedOf(t) {
          var i :| 0 <= i < |t| && t[i].Key() == k && t[i].address.Some?;
          assert es[i] == t[i];
        }
        if exists i :: 0 <= i < |es| && es[i].Key() == k && es[i].address.Some? {
          var i :| 0 <= i < |es| && es[i].Key() == k && es[i].address.Some?;
          if i < |t| { assert t[i] == es[i]; }
        }
      }
      forall i | 0 <= i < |es| && es[i].address.Some?
        ensures es[i].Key() in AddressedOf(es) && AddressedOf(es)[es[i].Key()] == es[i]
      {
        if i < |t| { assert t[i] == es[i] && es[i].Key() != es[|es| - 1].Key(); }
      }
    }
  }

  ghost function Addressed(edges: Edges): Edges { map k | k in edges && edges[k].address.Some? :: edges[k] }

  lemma KeysDiffer(edges: Edges)
    requires WellKeyed(edges)
    ensures var es := EdgesInOrder(edges); forall i, j :: 0 <= i < j < |es| ==> es[i].Key() != es[j].Key()
  {
    EdgeKeyOrder();
    var keys, es := Order.Sort(edges.Keys, EdgeKeyLess), EdgesInOrder(edges);
    hide EdgeKeyLess;
    forall i, j | 0 <= i < j < |es| ensures es[i].Key() != es[j].Key() {
      assert keys[i] in keys && keys[j] in keys;
      assert EdgeKeyLess(keys[i], keys[j]);
    }
  }

  lemma EdgesAddressed(edges: Edges)
    requires WellKeyed(edges)
    ensures AddressedOf(EdgesInOrder(edges)) == Addressed(edges)
  {
    hide EdgesInOrder;
    var es := EdgesInOrder(edges);
    KeysDiffer(edges);
    AddressedAre(es);
    var got, want := AddressedOf(es), Addressed(edges);
    forall k | k in want ensures k in got {
      assert edges[k] in es;
      var i :| 0 <= i < |es| && es[i] == edges[k];
    }
    forall k | k in got ensures k in want && got[k] == want[k] {
      var i :| 0 <= i < |es| && es[i].Key() == k && es[i].address.Some?;
      assert es[i] in es;
    }
  }

  /** A fresh node that applies the synchronisation messages of `a` has exactly the owned subnets of `a`, in order and
      up to their expiry, and exactly its edges that carry an address. */
  lemma SyncReproduces(a: NetView, nonce: u32, me: Name, b: NetView, now: int)
    requires a.Valid() && DuplicateFree(a.subnets)
    requires AppliedAll(Fresh(me), SyncMessages(a, nonce).0, b, now)
    ensures b.subnets == OwnedTravelled(a.subnets) && b.graph.edges == Addressed(a.graph.edges) && b.graph.myself == me
  {
    hide Applied, SubnetMessages, EdgeMessages, EdgesInOrder, AddressedOf, Addressed, OwnedTravelled, Sorted,
      DuplicateFree;
    var (subnets, n) := SubnetMessages(a.subnets, nonce);
    var es := EdgesInOrder(a.graph.edges);
    FreshIsValid(me);
    AppliedAllIsValid(Fresh(me), subnets + EdgeMessages(es, n).0, b, now);
    var c := AppliedSplits(Fresh(me), subnets, EdgeMessages(es, n).0, b, now);
    SubnetsArrive(a.subnets, nonce, me, c, now);
    EdgesArrive(es, n, c, b, now);
    EdgesAddressed(a.graph.edges);
  }

  /** The last message announces an edge, so the routes are fresh when all have been applied. */
  lemma RoutesAreFresh(es: seq<Edge>, nonce: u32, a: NetView, b: NetView, now: int) returns (before: GraphView)
    requires a.Valid() && es != [] && es[|es| - 1].address.Some? && AppliedAll(a, EdgeMessages(es, nonce).0, b, now)
    ensures before.Valid() && Recomputed(before, b.graph, b.experimental, now)
  {
    hide Recomputed, Sorted, ConsistentOwnership, AppliedAll;
    var ms := EdgeMessages(es, nonce).0;
    var told := EdgeMessages(es[..|es| - 1], nonce).0;
    assert ms == told + [ms[|ms| - 1]] && ms[..|ms| - 1] == told;
    var c := LastApplied(a, ms, b, now);
    before := WithEdge(c.graph, ms[|ms| - 1].addedEdge);
  }

  lemma LastApplied(a: NetView, ms: seq<MetaMessage>, b: NetView, now: int) returns (c: NetView)
    requires a.Valid() && ms != [] && AppliedAll(a, ms, b, now)
    ensures c.Valid() && Applied(c, OnWire(ms[|ms| - 1]), b, now)
  {
    hide Applied;
    c :| AppliedThrough(a, ms, c, b, now);
  }

  /** If every edge carries an address and the new node is one that the old one can reach, the two agree on which nodes
      are reachable and on the broadcast tree. */
  lemma SyncedNodesAgree(a: NetView, nonce: u32, me: Name, b: NetView, now: int)
    requires a.Valid() && DuplicateFree(a.subnets) && UpToDate(a.graph)
    requires AppliedAll(Fresh(me), SyncMessages(a, nonce).0, b, now)
    requires forall k :: k in a.graph.edges ==> a.graph.edges[k].address.Some?
    requires me in ReachableNames(a.graph.nodes) && me != a.graph.myself
    ensures b.graph.edges == a.graph.edges
    ensures ReachableNames(b.graph.nodes) == ReachableNames(a.graph.nodes) && b.graph.mst == a.graph.mst
  {
    hide *;
    SyncReproduces(a, nonce, me, b, now);
    AllAddressed(a.graph.edges);
    var before := FreshAfterSync(a, nonce, me, b, now);
    RecomputedIsUpToDate(before, b.graph, b.experimental, now);
    FreshGraphsAgree(a.graph, b.graph);
  }

  lemma AllAddressed(edges: Edges)
    requires forall k :: k in edges ==> edges[k].address.Some?
    ensures Addressed(edges) == edges
  {
  }

  lemma FreshAfterSync(a: NetView, nonce: u32, me: Name, b: NetView, now: int) returns (before: GraphView)
    requires a.Valid() && UpToDate(a.graph)
    requires AppliedAll(Fresh(me), SyncMessages(a, nonce).0, b, now)
    requires forall k :: k in a.graph.edges ==> a.graph.edges[k].address.Some?
    requires me in ReachableNames(a.graph.nodes) && me != a.graph.myself
    ensures before.Valid() && Recomputed(before, b.graph, b.experimental, now)
  {
    hide Applied, SubnetMessages, EdgeMessages, EdgesInOrder, Sorted, Recomputed, Kruskal, IsReachableSet, SearchEnds,
      ReachableNames;
    var (subnets, n) := SubnetMessages(a.subnets, nonce);
    var es := EdgesInOrder(a.graph.edges);
    FreshIsValid(me);
    AppliedAllIsValid(Fresh(me), subnets + EdgeMessages(es, n).0, b, now);
    var c := AppliedSplits(Fresh(me), subnets, EdgeMessages(es, n).0, b, now);
    UpToDateMeans(a.graph);
    SomeEdge(a.graph, me, es);
    assert es[|es| - 1] in es && es[|es| - 1].Key() in a.graph.edges;
    before := RoutesAreFresh(es, n, c, b, now);
  }

  /** Two nodes with the same edges and fresh routes, one of which reaches the other, agree. */
  lemma FreshGraphsAgree(v: GraphView, w: GraphView)
    requires UpToDate(v) && UpToDate(w) && v.edges == w.edges && w.myself in ReachableNames(v.nodes)
    ensures ReachableNames(v.nodes) == ReachableNames(w.nodes) && v.mst == w.mst
  {
    hide SearchEnds, Kruskal, IsReachableSet, ReachableNames, Component, UpToDate;
    var r, s := ReachableNames(v.nodes), ReachableNames(w.nodes);
    UpToDateMeans(v);
    UpToDateMeans(w);
    ReachableIsComponent(v.Searched(), r);
    ReachableIsComponent(w.Searched(), s);
    ComponentIsUnique(v.edges, r, s, w.myself);
  }

  lemma UpToDateMeans(v: GraphView)
    requires UpToDate(v)
    ensures IsReachableSet(v.Searched(), ReachableNames(v.nodes)) && v.mst == Kruskal(v.edges, ReachableNames(v.nodes))
  {
    hide SearchEnds, Kruskal, IsReachableSet, ReachableNames;
  }

  lemma SomeEdge(v: GraphView, me: Name, es: seq<Edge>)
    requires v.Valid() && IsReachableSet(v.Searched(), ReachableNames(v.nodes)) && es == EdgesInOrder(v.edges)
    requires me in ReachableNames(v.nodes) && me != v.myself
    ensures es != []
  {
    hide EdgesInOrder, ReachableNames;
    assert Reachable(v.Searched(), me);
    var p :| WalkTo(v.Searched(), p, me);
    assert |p| > 1 && TwoWay(v.edges, LastStep(p));
    assert v.edges[LastStep(p)] in es;
  }
}
