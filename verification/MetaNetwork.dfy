/** The coordinator as an object: it owns the network state and handles what the connections deliver. */
module MetaNetwork {
  import opened Basics
  import opened Names
  import opened Topology
  import opened Subnets
  import opened Messages
  import opened Graph
  import opened State
  import opened Coordinator
  import Framing

  class MetaConnectionHandle {
    var peer: Option<Name>
    const remoteAddress: string
    const localAddress: Option<Endpoint>
    const edgeNonce: nat
    var activated: bool

    function View(): Handle
      reads this
    {
      Handle(peer, remoteAddress, localAddress, edgeNonce, activated)
    }

    constructor (remote: string, local: Option<Endpoint>, nonce: nat)
      ensures View() == Handle(None, remote, local, nonce, false)
    {
      peer, remoteAddress, localAddress, edgeNonce, activated := None, remote, local, nonce, false;
    }
  }

  class MetaNetworkCoordinator {
    const state: NetworkState
    const mode: Mode
    var nextNonce: u32

    ghost function View(): Local
      reads this, state, state.graph, state.table
    {
      Local(state.View(), nextNonce)
    }

    ghost predicate Valid()
      reads this, state, state.graph, state.table
    {
      View().Valid()
    }

    constructor (network: NetworkState, role: Mode, nonceSeed: u32)
      requires network.Valid()
      ensures Valid() && state == network && mode == role && nextNonce == nonceSeed
    {
      state, mode, nextNonce := network, role, nonceSeed;
    }

    method TakeNonce() returns (nonce: u32)
      modifies this`nextNonce
      ensures nonce == old(nextNonce) && nextNonce == Successor(nonce)
    {
      nonce := nextNonce;
      nextNonce := Successor(nextNonce);
    }

    method MessageForSubnet(subnet: Subnet) returns (m: Option<MetaMessage>)
      modifies this`nextNonce
      ensures m == AddSubnetMessage(subnet, old(nextNonce))
      ensures nextNonce == if m.Some? then Successor(old(nextNonce)) else old(nextNonce)
    {
      if subnet.owner.None? {
        return None;
      }
      var nonce := TakeNonce();
      m := Some(AddSubnet(SubnetMessage(nonce, subnet.owner.value, subnet.(owner := None))));
    }

    method MessageForEdge(edge: Edge) returns (m: Option<MetaMessage>)
      modifies this`nextNonce
      ensures m == EdgeMessage(edge, old(nextNonce))
      ensures nextNonce == if m.Some? then Successor(old(nextNonce)) else old(nextNonce)
    {
      if edge.address.None? {
        return None;
      }
      var nonce := TakeNonce();
      m := Some(AddEdge(AddEdgeMessage(nonce, edge, edge.address.value.address, edge.address.value.port,
        edge.localAddress)));
    }

    method CollectSyncMessages() returns (messages: seq<MetaMessage>)
      modifies this`nextNonce
      ensures (messages, nextNonce) == SyncMessages(old(state.View()), old(nextNonce))
    {
      hide EdgesInOrder, AddSubnetMessage, EdgeMessage;
      var subnets, edges := state.table.subnets, EdgesInOrder(state.graph.edges);
      messages := [];
      for i := 0 to |subnets|
        invariant (messages, nextNonce) == SubnetMessages(subnets[..i], old(nextNonce))
      {
        assert subnets[..i + 1][..i] == subnets[..i];
        var m := MessageForSubnet(subnets[i]);
        if m.Some? {
          messages := messages + [m.value];
        }
      }
      assert subnets[..|subnets|] == subnets;
      ghost var told, nonce := messages, nextNonce;
      for i := 0 to |edges|
        invariant var (ms, n) := EdgeMessages(edges[..i], nonce); messages == told + ms && nextNonce == n
      {
        assert edges[..i + 1][..i] == edges[..i];
        var m := MessageForEdge(edges[i]);
        if m.Some? {
          messages := messages + [m.value];
        }
      }
      assert edges[..|edges|] == edges;
    }

    /** The answer to a wrong claim about this node. */
    method Correct(m: MetaMessage) returns (correction: Option<MetaMessage>)
      requires IsLocalClaim(state.graph.myself, m)
      modifies this`nextNonce
      ensures correction == Correction(old(state.View()), m, old(nextNonce))
      ensures nextNonce == if correction.Some? then Successor(old(nextNonce)) else old(nextNonce)
    {
      hide EdgeMessage, CompareTinc;
      var myself := state.graph.myself;
      match m
      case AddSubnet(s) => {
        var known := state.table.LookupOwnerSubnet(myself, s.subnet);
        if known.Some? {
          return None;
        }
        var nonce := TakeNonce();
        correction := Some(DeleteSubnet(SubnetMessage(nonce, myself, s.subnet)));
      }
      case DeleteSubnet(s) => {
        var known := state.table.LookupOwnerSubnet(myself, s.subnet);
        if known.None? {
          return None;
        }
        var nonce := TakeNonce();
        correction := Some(AddSubnet(SubnetMessage(nonce, myself, s.subnet.(owner := None))));
      }
      case AddEdge(e) => {
        var key := EdgeKey(e.edge.from, e.edge.to);
        correction := None;
        if key in state.graph.edges {
          correction := MessageForEdge(state.graph.edges[key]);
        }
        if correction.None? {
          var nonce := TakeNonce();
          correction := Some(DeleteEdge(DeleteEdgeMessage(nonce, e.edge.from, e.edge.to)));
        }
      }
      case DeleteEdge(e) => {
        var key := EdgeKey(e.from, e.to);
        correction := None;
        if key in state.graph.edges {
          correction := MessageForEdge(state.graph.edges[key]);
        }
      }
    }

    /** Applying a message to the state never fails. */
    method ApplyRelayedMessage(handle: MetaConnectionHandle, m: MetaMessage, now: int) returns (out: NetStep)
      requires Valid()
      modifies this, state.graph, state.table
      ensures Valid() && Relayed(mode, old(View()), handle.View(), m, View(), out, now)
    {
      hide Applied, Correction, Sorted, ConsistentOwnership;
      var myself := state.graph.myself;
      if IsLocalClaim(myself, m) {
        var correction := Correct(m);
        var sends := [];
        if handle.peer.Some? && correction.Some? {
          sends := [Send(Peer(handle.peer.value), correction.value)];
        }
        return NetStep(sends, [LocalClaimRejected(m, correction)]);
      }
      if TunnelServerIgnores(mode, myself, handle.peer, m) {
        return NetStep([], [TunnelServerIgnored(m)]);
      }
      ghost var before := View();
      var applied := state.ApplyMetaMessageAt(m, now);
      AppliedKeepsValid(before, m, state.View(), now);
      out := NetStep(if ShouldForward(mode, m) then [Send(Everyone(handle.peer), m)] else [], [Mutated(m)]);
    }

    method ActivateConnection(handle: MetaConnectionHandle, event: Framing.AuthEvent, now: int) returns (out: NetStep)
      requires Valid() && event.ConnectionActivated? && event.weight >= 0
      modifies this, handle, state.graph, state.table
      ensures Valid() && ActivatedTo(mode, old(View()), old(handle.View()), event, View(), handle.View(), out, now)
    {
      hide Applied, SyncMessages, Sorted, ConsistentOwnership, EdgeOfMessage;
      var peer := Name(event.peer);
      var messages := CollectSyncMessages();
      var m := AddEdge(ConnectionEdge(state.graph.myself, handle.View(), peer, event.port, event.weight,
        event.options));
      ghost var before := View();
      var applied := state.ApplyMetaMessageAt(m, now);
      AppliedKeepsValid(before, m, state.View(), now);
      out := NetStep(SendsTo(Peer(peer), messages) + [Send(if mode == Mesh then Everyone(None) else Peer(peer), m)],
                     [Reported(Framing.Auth(event)), Mutated(m)]);
      handle.peer := Some(peer);
      handle.activated := true;
    }

    method HandleEvent(handle: MetaConnectionHandle, event: Framing.Event, now: int) returns (out: NetStep)
      requires Valid() && Fits(event)
      modifies this, handle, state.graph, state.table
      ensures Valid() && Handled(mode, old(View()), old(handle.View()), event, View(), handle.View(), out, now)
    {
      hide Relayed, ActivatedTo, Sorted, ConsistentOwnership;
      if event.Message? {
        if handle.activated {
          out := ApplyRelayedMessage(handle, event.message, now);
        } else {
          out := NetStep([], [PassedOn(event.message)]);
        }
      } else if IsActivation(event) {
        out := ActivateConnection(handle, event.event, now);
      } else {
        out := NetStep([], [Reported(event)]);
      }
    }

    method HandleConnectionStep(handle: MetaConnectionHandle, events: seq<Framing.Event>, now: int)
      returns (out: NetStep)
      requires Valid() && forall e :: e in events ==> Fits(e)
      modifies this, handle, state.graph, state.table
      ensures Valid() && HandledAll(mode, old(View()), old(handle.View()), events, View(), handle.View(), out, now)
    {
      hide Handled, Sorted, ConsistentOwnership, Fits;
      out := NetStep([], []);
      ghost var a, h := View(), handle.View();
      for i := 0 to |events|
        invariant Valid() && HandledAll(mode, a, h, events[..i], View(), handle.View(), out, now)
      {
        var rest := events[..i + 1];
        assert rest[..|rest| - 1] == events[..i] && rest[|rest| - 1] == events[i];
        ghost var c, hc, o1 := View(), handle.View(), out;
        var o2 := HandleEvent(handle, events[i], now);
        assert HandledThrough(mode, a, h, rest, c, hc, o1, View(), handle.View(), o2, now);
        out := out.Plus(o2);
      }
      assert events[..|events|] == events;
    }
  }
}
