/** The values a mesh graph is made of: endpoints, edges, routes and nodes. */
module Topology {
  import opened Basics
  import opened Names

  const OPTION_INDIRECT := 1
  const DEFAULT_MTU := 1518

  datatype Endpoint = Endpoint(address: string, port: string)

  datatype EdgeKey = EdgeKey(from: Name, to: Name) {
    function Reverse(): EdgeKey { EdgeKey(to, from) }
  }

  /** A directed link as one of its ends advertised it. */
  datatype Edge = Edge(from: Name, to: Name, address: Option<Endpoint>, localAddress: Option<Endpoint>,
                       options: nat, weight: nat) {
    function Key(): EdgeKey { EdgeKey(from, to) }
    predicate Indirect() { options % 2 == OPTION_INDIRECT }
  }

  type Edges = map<EdgeKey, Edge>

  datatype RouteState = RouteState(distance: Option<nat>, weightedDistance: Option<nat>, nextHop: Option<Name>,
                                   previousEdge: Option<EdgeKey>, via: Option<Name>)

  const NO_ROUTE := RouteState(None, None, None, None, None)

  /** The flags of a node that belong to its data session rather than to routing. */
  datatype SessionFlags = SessionFlags(validKey: bool, waitingForKey: bool, sptps: bool, udpConfirmed: bool,
                                       sendLocally: bool, udpPacket: bool, validKeyIn: bool, hasAddress: bool,
                                       pingSent: bool)

  const NO_SESSION := SessionFlags(false, false, false, false, false, false, false, false, false)

  datatype NodeStatus = NodeStatus(visited: bool, reachable: bool, indirect: bool, session: SessionFlags)

  const NEW_STATUS := NodeStatus(false, false, false, NO_SESSION)

  datatype LinkState = LinkState(mtu: nat, minMtu: nat, maxMtu: nat, mtuProbes: int, udpAddress: Option<Endpoint>)

  datatype Node = Node(name: Name, status: NodeStatus, lastStateChange: int, route: RouteState, options: nat,
                       link: LinkState)

  function NewNode(name: Name): Node {
    Node(name, NEW_STATUS, 0, NO_ROUTE, 0, LinkState(DEFAULT_MTU, 0, DEFAULT_MTU, 0, None))
  }

  type Nodes = map<Name, Node>

  /** Every edge is stored under its own key. */
  ghost predicate WellKeyed(edges: Edges) {
    forall k :: k in edges ==> edges[k].Key() == k
  }

  /** A link is usable only when both of its ends advertise it. */
  predicate TwoWay(edges: Edges, k: EdgeKey) {
    k in edges && k.Reverse() in edges
  }

  ghost function Links(edges: Edges): set<EdgeKey> {
    set k | k in edges && TwoWay(edges, k)
  }
}
