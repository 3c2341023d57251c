/** What a node does with the messages of its connections: apply and relay them, refuse claims about itself, and tell a
    new peer everything it knows. */
module Coordinator {
  import opened Basics
  import opened Names
  import opened Order
  import opened Topology
  import opened Subnets
  import opened Messages
  import opened Graph
  import opened State
  import Recompute
  import Framing

  datatype Mode = Mesh | TunnelServer

  datatype Target = Peer(name: Name) | Everyone(exclude: Option<Name>)

  datatype Send = Send(target: Target, message: MetaMessage)

  datatype NetEvent =
    | PassedOn(message: MetaMessage)
    | Mutated(message: MetaMessage)
    | LocalClaimRejected(message: MetaMessage, correction: Option<MetaMessage>)
    | TunnelServerIgnored(message: MetaMessage)
    | Reported(event: Framing.Event)

  datatype NetStep = NetStep(sends: seq<Send>, events: seq<NetEvent>) {
    function Plus(later: NetStep): NetStep { NetStep(sends + later.sends, events + later.events) }
  }

  /** One connection. */
  datatype Handle = Handle(peer: Option<Name>, remoteAddress: string, localAddress: Option<Endpoint>, edgeNonce: nat,
    activated: bool)

  /** The coordinator's own state. */
  datatype Local = Local(net: NetView, nextNonce: u32) {
    ghost predicate Valid() { net.Valid() }
  }

  function AddSubnetMessage(s: Subnet, nonce: u32): Option<MetaMessage> {
    if s.owner.None? then None else Some(AddSubnet(SubnetMessage(nonce, s.owner.value, s.(owner := None))))
  }

  function EdgeMessage(e: Edge, nonce: u32): Option<MetaMessage> {
    if e.address.None? then None
    else Some(AddEdge(AddEdgeMessage(nonce, e, e.address.value.address, e.address.value.port, e.localAddress)))
  }

  // Telling a new peer everything.

  predicate EdgeKeyLess(a: EdgeKey, b: EdgeKey) {
    if a.from != b.from then NameLess(a.from, b.from) else NameLess(a.to, b.to)
  }

  lemma EdgeKeyOrder()
    ensures StrictTotal(EdgeKeyLess)
  {
    NameOrder();
    hide NameLess;
  }

  /** The edges in the order of the map that holds them. */
  function EdgesInOrder(edges: Edges): (r: seq<Edge>)
    ensures |r| == |edges|
    ensures WellKeyed(edges) ==> forall e :: e in r <==> e.Key() in edges && edges[e.Key()] == e
  {
    EdgeKeyOrder();
    var keys := Sort(edges.Keys, EdgeKeyLess);
    var r := seq(|keys|, i requires 0 <= i < |keys| => assert keys[i] in keys; edges[keys[i]]);
    assert WellKeyed(edges) ==> forall e :: e in r <==> e.Key() in edges && edges[e.Key()] == e by {
      if WellKeyed(edges) { EdgesListed(edges, keys, r); }
    }
    r
  }

  lemma EdgesListed(edges: Edges, keys: seq<EdgeKey>, r: seq<Edge>)
    requires WellKeyed(edges) && |r| == |keys| && forall k :: k in keys <==> k in edges
    requires forall i :: 0 <= i < |keys| ==> keys[i] in keys && r[i] == edges[keys[i]]
    ensures forall e :: e in r <==> e.Key() in edges && edges[e.Key()] == e
  {
    forall e: Edge | e.Key() in edges && edges[e.Key()] == e ensures e in r {
      var i :| 0 <= i < |keys| && keys[i] == e.Key();
      assert r[i] == e;
    }
  }

  /** The messages made of the first entries, and the next free nonce. */
  function SubnetMessages(s: seq<Subnet>, nonce: u32): (seq<MetaMessage>, u32) {
    if s == [] then ([], nonce) else
    var (ms, n) := SubnetMessages(s[..|s| - 1], nonce);
    var m := AddSubnetMessage(s[|s| - 1], n);
    if m.None? then (ms, n) else (ms + [m.value], Successor(n))
  }

  function EdgeMessages(es: seq<Edge>, nonce: u32): (seq<MetaMessage>, u32) {
    if es == [] then ([], nonce) else
    var (ms, n) := EdgeMessages(es[..|es| - 1], nonce);
    var m := EdgeMessage(es[|es| - 1], n);
    if m.None? then (ms, n) else (ms + [m.value], Successor(n))
  }

  function SyncMessages(a: NetView, nonce: u32): (seq<MetaMessage>, u32) {
    var (subnets, n) := SubnetMessages(a.subnets, nonce);
    var (edges, n') := EdgeMessages(EdgesInOrder(a.graph.edges), n);
    (subnets + edges, n')
  }

  function SendsTo(target: Target, ms: seq<MetaMessage>): seq<Send> {
    seq(|ms|, i requires 0 <= i < |ms| => Send(target, ms[i]))
  }

  // Relayed messages.

  predicate IsLocalClaim(myself: Name, m: MetaMessage) {
    match m
    case AddSubnet(s) => s.owner == myself
    case DeleteSubnet(s) => s.owner == myself
    case AddEdge(e) => e.edge.from == myself
    case DeleteEdge(e) => e.from == myself
    case _ => false
  }

  predicate Holds(s: seq<Subnet>, x: Subnet) { Position(s, x) < |s| }

  /** What this node answers to a claim about itself, if the claim is wrong. */
  function Correction(a: NetView, m: MetaMessage, nonce: u32): Option<MetaMessage> {
    match m
    case AddSubnet(s) =>
      if Holds(a.subnets, s.subnet.WithOwner(a.graph.myself)) then None
      else Some(DeleteSubnet(SubnetMessage(nonce, a.graph.myself, s.subnet)))
    case DeleteSubnet(s) =>
      if Holds(a.subnets, s.subnet.WithOwner(a.graph.myself))
      then Some(AddSubnet(SubnetMessage(nonce, a.graph.myself, s.subnet.(owner := None)))) else None
    case AddEdge(e) =>
      var k := EdgeKey(e.edge.from, e.edge.to);
      var known := if k in a.graph.edges then EdgeMessage(a.graph.edges[k], nonce) else None;
      if known.Some? then known else Some(DeleteEdge(DeleteEdgeMessage(nonce, e.edge.from, e.edge.to)))
    case DeleteEdge(e) =>
      var k := EdgeKey(e.from, e.to);
      if k in a.graph.edges then EdgeMessage(a.graph.edges[k], nonce) else None
    case _ => None
  }

  predicate EndpointIsDirect(myself: Name, peer: Option<Name>, n: Name) { n == myself || peer == Some(n) }

  predicate IndirectEdge(myself: Name, peer: Option<Name>, from: Name, dest: Name) {
    !EndpointIsDirect(myself, peer, from) && !EndpointIsDirect(myself, peer, dest)
  }

  predicate TunnelServerIgnores(mode: Mode, myself: Name, peer: Option<Name>, m: MetaMessage) {
    mode == TunnelServer &&
    match m
    case AddSubnet(s) => s.owner != myself
    case DeleteSubnet(s) => s.owner != myself
    case AddEdge(e) => IndirectEdge(myself, peer, e.edge.from, e.edge.to)
    case DeleteEdge(e) => IndirectEdge(myself, peer, e.from, e.to)
    case _ => false
  }

  predicate ShouldForward(mode: Mode, m: MetaMessage) {
    mode == Mesh && (m.AddSubnet? || m.DeleteSubnet? || m.AddEdge? || m.DeleteEdge? || m.KeyChanged?)
  }

  /** What a relayed message does. */
  ghost predicate Relayed(mode: Mode, a: Local, h: Handle, m: MetaMessage, b: Local, out: NetStep, now: int)
    requires a.net.graph.Valid()
  {
    var myself := a.net.graph.myself;
    if IsLocalClaim(myself, m) then
      var c := Correction(a.net, m, a.nextNonce);
      && b == Local(a.net, if c.Some? then Successor(a.nextNonce) else a.nextNonce)
      && out == NetStep(if h.peer.Some? && c.Some? then [Send(Peer(h.peer.value), c.value)] else [],
        [LocalClaimRejected(m, c)])
    else if TunnelServerIgnores(mode, myself, h.peer, m) then
      b == a && out == NetStep([], [TunnelServerIgnored(m)])
    else
      && Applied(a.net, m, b.net, now) && b.nextNonce == a.nextNonce
      && out == NetStep(if ShouldForward(mode, m) then [Send(Everyone(h.peer), m)] else [], [Mutated(m)])
  }

  /** The edge an activated connection stands for. */
  function ConnectionEdge(myself: Name, h: Handle, peer: Name, port: string, weight: nat,
      options: nat): AddEdgeMessage {
    AddEdgeMessage(h.edgeNonce, Edge(myself, peer, None, None, options, weight), h.remoteAddress, port, h.localAddress)
  }

  ghost predicate ActivatedTo(mode: Mode, a: Local, h: Handle, event: Framing.AuthEvent, b: Local, h': Handle,
      out: NetStep, now: int)
    requires a.net.graph.Valid() && event.ConnectionActivated? && event.weight >= 0
  {
    var peer := Name(event.peer);
    var (sync, nonce) := SyncMessages(a.net, a.nextNonce);
    var m := AddEdge(ConnectionEdge(a.net.graph.myself, h, peer, event.port, event.weight, event.options));
    && Applied(a.net, m, b.net, now) && b.nextNonce == nonce
    && h' == h.(peer := Some(peer), activated := true)
    && out == NetStep(SendsTo(Peer(peer), sync) + [Send(if mode == Mesh then Everyone(None) else Peer(peer), m)],
                      [Reported(Framing.Auth(event)), Mutated(m)])
  }

  predicate IsActivation(event: Framing.Event) { event.Auth? && event.event.ConnectionActivated? }

  /** The negotiated weight of a connection is not negative. */
  predicate Fits(event: Framing.Event) { IsActivation(event) ==> event.event.weight >= 0 }

  /** What one event of a connection does. */
  ghost predicate Handled(mode: Mode, a: Local, h: Handle, event: Framing.Event, b: Local, h': Handle, out: NetStep,
      now: int)
    requires a.net.graph.Valid() && Fits(event)
  {
    if event.Message? && h.activated then h' == h && Relayed(mode, a, h, event.message, b, out, now)
    else if event.Message? then b == a && h' == h && out == NetStep([], [PassedOn(event.message)])
    else if IsActivation(event) then ActivatedTo(mode, a, h, event.event, b, h', out, now)
    else b == a && h' == h && out == NetStep([], [Reported(event)])
  }

  /** What a list of events does, one after the other. */
  ghost predicate HandledAll(mode: Mode, a: Local, h: Handle, events: seq<Framing.Event>, b: Local, h': Handle,
      out: NetStep, now: int)
    requires a.Valid() && forall e :: e in events ==> Fits(e)
    decreases |events|, 0
  {
    if events == [] then b == a && h' == h && out == NetStep([], [])
    else exists c, hc, o1, o2 :: HandledThrough(mode, a, h, events, c, hc, o1, b, h', o2, now) && out == o1.Plus(o2)
  }

  ghost predicate HandledThrough(mode: Mode, a: Local, h: Handle, events: seq<Framing.Event>, c: Local, hc: Handle,
      o1: NetStep, b: Local, h': Handle, o2: NetStep, now: int)
    requires a.Valid() && events != [] && forall e :: e in events ==> Fits(e)
    decreases |events| - 1, 1
  {
    && HandledAll(mode, a, h, events[..|events| - 1], c, hc, o1, now) && c.Valid()
    && Handled(mode, c, hc, events[|events| - 1], b, h', o2, now)
  }

  // What a claim about this node can never change.

  /** The edges that leave `n`. */
  ghost function Outgoing(edges: Edges, n: Name): Edges { map k | k in edges && k.from == n :: edges[k] }

  /** Inserting or removing an entry of another owner leaves an owner's entries as they were. */
  lemma {:induction false} InsertKeepsOwner(s: seq<Subnet>, x: Subnet, owner: Name)
    requires !OwnedBy(x, owner)
    ensures Select(Insert(s, x), owner, true) == Select(s, owner, true)
  {
    hide CompareTinc;
    if s == [] || CompareTinc(s[|s| - 1], x) != Greater {
      assert (s + [x])[..|s|] == s;
    } else {
      InsertKeepsOwner(s[..|s| - 1], x, owner);
      var r := Insert(s[..|s| - 1], x) + [s[|s| - 1]];
      assert r[..|r| - 1] == Insert(s[..|s| - 1], x);
    }
  }

  lemma {:induction false} WithoutKeepsOwner(s: seq<Subnet>, i: nat, owner: Name)
    requires i < |s| && !OwnedBy(s[i], owner)
    ensures Select(Without(s, i), owner, true) == Select(s, owner, true)
  {
    hide OwnedBy;
    var t := s[..|s| - 1];
    if i == |s| - 1 {
      assert Without(s, i) == t;
    } else {
      WithoutKeepsOwner(t, i, owner);
      var r := Without(s, i);
      assert r == Without(t, i) + [s[|s| - 1]];
      assert r[..|r| - 1] == Without(t, i);
      hide Without;
    }
  }

  /** A message that is not a claim about this node leaves its subnets and its outgoing edges alone. */
  lemma AppliedKeepsClaims(a: NetView, m: MetaMessage, b: NetView, now: int)
    requires a.Valid() && Applied(a, m, b, now)
    requires !IsLocalClaim(a.graph.myself, m)
    ensures Select(b.subnets, a.graph.myself, true) == Select(a.subnets, a.graph.myself, true)
    ensures Outgoing(b.graph.edges, a.graph.myself) == Outgoing(a.graph.edges, a.graph.myself)
    ensures b.graph.myself == a.graph.myself
  {
    hide CompareTinc, Recomputed, Sorted, ConsistentOwnership, Select, Insert;
    var me := a.graph.myself;
    match m
    case AddSubnet(s) =>
      InsertKeepsOwner(a.subnets, s.subnet.WithOwner(s.owner), me);
    case DeleteSubnet(s) =>
      var x := s.subnet.WithOwner(s.owner);
      var i := Position(a.subnets, x);
      if i < |a.subnets| {
        CompareEqual(a.subnets[i], x);
        assert a.subnets[i] in a.subnets;
        WithoutKeepsOwner(a.subnets, i, me);
      }
    case AddEdge(e) => RecomputedKeepsEdges(WithEdge(a.graph, e), b.graph, a.experimental, now);
    case DeleteEdge(e) => RecomputedKeepsEdges(WithoutEdge(a.graph, e.from, e.to), b.graph, a.experimental, now);
    case _ =>
  }

  lemma RecomputedKeepsEdges(before: GraphView, after: GraphView, experimental: bool, now: int)
    requires before.myself in before.nodes && Recomputed(before, after, experimental, now)
    ensures after.edges == before.edges && after.myself == before.myself
  {
  }

  /** Tables stay sorted. */
  lemma AddedKeepsTable(s: seq<Subnet>, x: Subnet)
    requires Sorted(s) && ConsistentOwnership(s)
    ensures Sorted(AddedUnique(s, x)) && ConsistentOwnership(AddedUnique(s, x))
  {
    hide CompareTinc, Insert, SameOwnership;
    if Position(s, x) == |s| {
      NewIsSeparate(s, x);
      InsertSorts(s, x);
      InsertKeeps(s, x);
      ConsistentInsert(s, x, Insert(s, x));
    }
  }

  lemma RemovedKeepsTable(s: seq<Subnet>, x: Subnet)
    requires Sorted(s) && ConsistentOwnership(s)
    ensures Sorted(Removed(s, x)) && ConsistentOwnership(Removed(s, x))
  {
    hide CompareTinc, Sorted, ConsistentOwnership;
    if Position(s, x) < |s| {
      WithoutKeeps(s, Position(s, x));
      assert forall y :: y in Without(s, Position(s, x)) ==> y in s;
    }
  }

  lemma AppliedKeepsValid(a: Local, m: MetaMessage, net: NetView, now: int)
    requires a.Valid() && Applied(a.net, m, net, now)
    ensures Local(net, a.nextNonce).Valid()
  {
    hide Recomputed, Sorted, ConsistentOwnership, AddedUnique, Removed;
    if m.AddEdge? || m.DeleteEdge? {
      EdgeKeepsValid(a, m, net, now);
    } else if m.AddSubnet? {
      AddedKeepsTable(a.net.subnets, m.added.subnet.WithOwner(m.added.owner));
    } else if m.DeleteSubnet? {
      RemovedKeepsTable(a.net.subnets, m.deleted.subnet.WithOwner(m.deleted.owner));
    }
  }

  lemma EdgeKeepsValid(a: Local, m: MetaMessage, net: NetView, now: int)
    requires a.Valid() && Applied(a.net, m, net, now) && (m.AddEdge? || m.DeleteEdge?)
    ensures Local(net, a.nextNonce).Valid()
  {
    hide Recomputed, Sorted, ConsistentOwnership;
    var g := a.net.graph;
    var before := if m.AddEdge? then WithEdge(g, m.addedEdge) else WithoutEdge(g, m.deletedEdge.from, m.deletedEdge.to);
    RecomputedStaysValid(before, net.graph, a.net.experimental, now);
  }

  lemma RecomputedStaysValid(before: GraphView, after: GraphView, experimental: bool, now: int)
    requires before.Valid() && Recomputed(before, after, experimental, now)
    ensures after.Valid()
  {
    Recompute.RecomputeIsSound(before, after, experimental, now);
  }

  /** The claims of this node: its subnets in table order and its outgoing edges. */
  ghost predicate SameSubnets(a: Local, b: Local) {
    && b.net.graph.myself == a.net.graph.myself
    && Select(b.net.subnets, a.net.graph.myself, true) == Select(a.net.subnets, a.net.graph.myself, true)
  }

  /** One event: this node's subnets stay, and its outgoing edges change only by the edge of an activated connection. */
  lemma HandledKeepsClaims(mode: Mode, a: Local, h: Handle, event: Framing.Event, b: Local, h': Handle, out: NetStep,
      now: int)
    requires a.Valid() && Fits(event) && Handled(mode, a, h, event, b, h', out, now)
    ensures b.Valid() && SameSubnets(a, b)
    ensures !IsActivation(event)
            ==> Outgoing(b.net.graph.edges, a.net.graph.myself) == Outgoing(a.net.graph.edges, a.net.graph.myself)
    ensures IsActivation(event) ==>
              var e := EdgeOfMessage(ConnectionEdge(a.net.graph.myself, h, Name(event.event.peer), event.event.port,
                event.event.weight, event.event.options));
              Outgoing(b.net.graph.edges, a.net.graph.myself)
                == Outgoing(a.net.graph.edges, a.net.graph.myself)[e.Key() := e]
    ensures mode == TunnelServer ==> forall s :: s in out.sends ==> s.target.Peer? && h'.peer == Some(s.target.name)
  {
    hide Applied, Select, Outgoing, SyncMessages, EdgeOfMessage, Correction;
    var me := a.net.graph.myself;
    if event.Message? && h.activated {
      if !IsLocalClaim(me, event.message) && !TunnelServerIgnores(mode, me, h.peer, event.message) {
        AppliedKeepsClaims(a.net, event.message, b.net, now);
        AppliedKeepsValid(a, event.message, b.net, now);
      }
    } else if IsActivation(event) {
      var m := ConnectionEdge(me, h, Name(event.event.peer), event.event.port, event.event.weight, event.event.options);
      AppliedKeepsValid(a, AddEdge(m), b.net, now);
      ActivationAddsEdge(a.net, m, b.net, now);
    }
  }

  lemma ActivationAddsEdge(a: NetView, m: AddEdgeMessage, b: NetView, now: int)
    requires a.Valid() && Applied(a, AddEdge(m), b, now) && m.edge.from == a.graph.myself
    ensures b.subnets == a.subnets && b.graph.myself == a.graph.myself
    ensures var e := EdgeOfMessage(m);
              Outgoing(b.graph.edges, a.graph.myself) == Outgoing(a.graph.edges, a.graph.myself)[e.Key() := e]
  {
    hide Recomputed;
    RecomputedKeepsEdges(WithEdge(a.graph, m), b.graph, a.experimental, now);
  }

  // Runs over any number of connections.

  /** The coordinator and the connections it serves. */
  datatype World = World(local: Local, handles: map<nat, Handle>)

  /** The events of one connection, handled at a given time. */
  datatype Call = Call(connection: nat, events: seq<Framing.Event>, now: int)

  ghost predicate Serves(mode: Mode, w: World, call: Call, w': World, out: NetStep)
    requires w.local.Valid()
  {
    && call.connection in w.handles && (forall e :: e in call.events ==> Fits(e))
    && call.connection in w'.handles && w'.handles == w.handles[call.connection := w'.handles[call.connection]]
    && HandledAll(mode, w.local, w.handles[call.connection], call.events, w'.local, w'.handles[call.connection], out,
      call.now)
  }

  ghost predicate IsRun(mode: Mode, worlds: seq<World>, calls: seq<Call>, outs: seq<NetStep>) {
    && |worlds| == |calls| + 1 && |outs| == |calls|
    && forall i | 0 <= i < |calls| ::
         worlds[i].local.Valid() && Serves(mode, worlds[i], calls[i], worlds[i + 1], outs[i])
  }

  /** The peers whose connections became active. */
  function ActivatedPeers(events: seq<Framing.Event>): set<Name> {
    set e | e in events && IsActivation(e) :: Name(e.event.peer)
  }

  /** This node's edges to all nodes but `except` are the same. */
  ghost predicate SameEdges(a: Local, b: Local, except: set<Name>) {
    forall n :: n !in except ==>
      var k := EdgeKey(a.net.graph.myself, n);
      && (k in a.net.graph.edges <==> k in b.net.graph.edges)
      && (k in a.net.graph.edges ==> a.net.graph.edges[k] == b.net.graph.edges[k])
  }

  lemma OutgoingMeans(a: Local, b: Local, except: set<Name>)
    requires a.net.graph.myself == b.net.graph.myself
    requires forall n :: n !in except ==>
      var (k, s, t) := (EdgeKey(a.net.graph.myself, n), Outgoing(a.net.graph.edges, a.net.graph.myself),
        Outgoing(b.net.graph.edges, a.net.graph.myself));
      (k in s <==> k in t) && (k in s ==> s[k] == t[k])
    ensures SameEdges(a, b, except)
  {
    forall n | n !in except
      ensures var k := EdgeKey(a.net.graph.myself, n);
        (k in a.net.graph.edges <==> k in b.net.graph.edges)
          && (k in a.net.graph.edges ==> a.net.graph.edges[k] == b.net.graph.edges[k])
    {
      var k := EdgeKey(a.net.graph.myself, n);
      assert k in Outgoing(a.net.graph.edges, a.net.graph.myself) <==> k in a.net.graph.edges;
      assert k in Outgoing(b.net.graph.edges, a.net.graph.myself) <==> k in b.net.graph.edges;
    }
  }

  /** All sends go to the peer of the connection they came from. */
  ghost predicate OnlyTo(out: NetStep, h: Handle) {
    forall s :: s in out.sends ==> s.target.Peer? && h.peer == Some(s.target.name)
  }

  /** One event, in the terms of a run. */
  lemma HandledKeeps(mode: Mode, a: Local, h: Handle, event: Framing.Event, b: Local, h': Handle, out: NetStep,
      now: int)
    requires a.Valid() && Fits(event) && Handled(mode, a, h, event, b, h', out, now)
    ensures b.Valid() && SameSubnets(a, b) && SameEdges(a, b, ActivatedPeers([event]))
    ensures mode == TunnelServer ==> OnlyTo(out, h')
    ensures !IsActivation(event) ==> h' == h
  {
    HandledKeepsClaims(mode, a, h, event, b, h', out, now);
    if IsActivation(event) { assert Name(event.event.peer) in ActivatedPeers([event]); }
    KeptEdges(a, h, event, b);
    hide Handled, SyncMessages, Outgoing;
  }

  lemma KeptEdges(a: Local, h: Handle, event: Framing.Event, b: Local)
    requires Fits(event) && a.net.graph.myself == b.net.graph.myself
    requires IsActivation(event) ==> Name(event.event.peer) in ActivatedPeers([event])
    requires !IsActivation(event)
             ==> Outgoing(b.net.graph.edges, a.net.graph.myself) == Outgoing(a.net.graph.edges, a.net.graph.myself)
    requires IsActivation(event) ==>
              var e := EdgeOfMessage(ConnectionEdge(a.net.graph.myself, h, Name(event.event.peer), event.event.port,
                event.event.weight, event.event.options));
              Outgoing(b.net.graph.edges, a.net.graph.myself)
                == Outgoing(a.net.graph.edges, a.net.graph.myself)[e.Key() := e]
    ensures SameEdges(a, b, ActivatedPeers([event]))
  {
    hide Outgoing, ActivatedPeers;
    OutgoingMeans(a, b, ActivatedPeers([event]));
  }

  lemma {:induction false} AllKeepClaims(mode: Mode, a: Local, h: Handle, events: seq<Framing.Event>, b: Local,
      h': Handle, out: NetStep, now: int)
    requires a.Valid() && (forall e :: e in events ==> Fits(e)) && HandledAll(mode, a, h, events, b, h', out, now)
    ensures b.Valid() && SameSubnets(a, b) && SameEdges(a, b, ActivatedPeers(events))
    decreases |events|
  {
    hide Handled, Select;
    if events == [] {
    } else {
      var c, hc, o1, o2 :| HandledThrough(mode, a, h, events, c, hc, o1, b, h', o2, now) && out == o1.Plus(o2);
      var rest, last := events[..|events| - 1], events[|events| - 1];
      assert events == rest + [last];
      AllKeepClaims(mode, a, h, rest, c, hc, o1, now);
      HandledKeeps(mode, c, hc, last, b, h', o2, now);
      PeersJoin(rest, last);
      EdgesJoin(a, c, b, ActivatedPeers(rest), ActivatedPeers([last]));
    }
  }

  lemma PeersJoin(rest: seq<Framing.Event>, last: Framing.Event)
    ensures ActivatedPeers(rest + [last]) == ActivatedPeers(rest) + ActivatedPeers([last])
  {
  }

  lemma EdgesJoin(a: Local, c: Local, b: Local, s: set<Name>, t: set<Name>)
    requires SameEdges(a, c, s) && SameEdges(c, b, t) && a.net.graph.myself == c.net.graph.myself
    ensures SameEdges(a, b, s + t)
  {
  }

  /** Every peer activated in the first `n` calls. */
  function PeersBefore(calls: seq<Call>, n: nat): set<Name>
    requires n <= |calls|
  {
    if n == 0 then {} else PeersBefore(calls, n - 1) + ActivatedPeers(calls[n - 1].events)
  }

  /** In every run of messages over any number of connections, in either mode, nobody else changes which subnets this
      node owns or which edges leave it: only its own activations touch an edge, the one to the activated peer. */
  lemma {:induction false} RunKeepsClaims(mode: Mode, worlds: seq<World>, calls: seq<Call>, outs: seq<NetStep>, n: nat)
    requires IsRun(mode, worlds, calls, outs) && n <= |calls| && worlds[0].local.Valid()
    ensures worlds[n].local.Valid() && SameSubnets(worlds[0].local, worlds[n].local)
    ensures SameEdges(worlds[0].local, worlds[n].local, PeersBefore(calls, n))
    decreases n
  {
    hide HandledAll, Select;
    if n == 0 {
    } else {
      RunKeepsClaims(mode, worlds, calls, outs, n - 1);
      var call, w, w' := calls[n - 1], worlds[n - 1], worlds[n];
      assert Serves(mode, worlds[n - 1], calls[n - 1], worlds[n - 1 + 1], outs[n - 1]);
      AllKeepClaims(mode, w.local, w.handles[call.connection], call.events, w'.local, w'.handles[call.connection],
        outs[n - 1], call.now);
      EdgesJoin(worlds[0].local, w.local, w'.local, PeersBefore(calls, n - 1), ActivatedPeers(call.events));
    }
  }

  /** A tunnel server talks only to the peer it is being talked to by. */
  lemma {:induction false} TunnelServerStaysPrivate(a: Local, h: Handle, events: seq<Framing.Event>, b: Local,
      h': Handle, out: NetStep, now: int)
    requires a.Valid() && (forall e :: e in events ==> Fits(e))
             && HandledAll(TunnelServer, a, h, events, b, h', out, now)
    requires forall e, f ::
               e in events && f in events && IsActivation(e) && IsActivation(f) ==> e.event.peer == f.event.peer
    requires forall e :: e in events && IsActivation(e) ==> h.peer.None? || h.peer == Some(Name(e.event.peer))
    ensures OnlyTo(out, h')
    ensures h'.peer == h.peer || exists e :: e in events && IsActivation(e) && h'.peer == Some(Name(e.event.peer))
    decreases |events|
  {
    hide Handled, Select, SameEdges, SameSubnets;
    if events == [] {
    } else {
      var c, hc, o1, o2 :| HandledThrough(TunnelServer, a, h, events, c, hc, o1, b, h', o2, now) && out == o1.Plus(o2);
      var rest, last := events[..|events| - 1], events[|events| - 1];
      assert events == rest + [last];
      TunnelServerStaysPrivate(a, h, rest, c, hc, o1, now);
      HandledKeeps(TunnelServer, c, hc, last, b, h', o2, now);
      ActivationSetsPeer(c, hc, last, b, h', o2, now);
    }
  }

  lemma ActivationSetsPeer(a: Local, h: Handle, event: Framing.Event, b: Local, h': Handle, out: NetStep, now: int)
    requires a.Valid() && Fits(event) && Handled(TunnelServer, a, h, event, b, h', out, now)
    ensures h'.peer == if IsActivation(event) then Some(Name(event.event.peer)) else h.peer
  {
    hide Relayed, SyncMessages, Applied;
  }
}
