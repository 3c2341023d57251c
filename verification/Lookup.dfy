/** Where a packet goes: the most specific subnet whose owner can be reached, and the next node on the way to it. */
module Lookup {
  import opened Basics
  import opened Names
  import opened Topology
  import opened Subnets
  import opened Masks
  import opened Routes
  import opened Graph
  import opened Recompute

  datatype Address = MacAddress(bytes: Data) | Ipv4Address(bytes: Data) | Ipv6Address(bytes: Data)

  /** The types of the fields of a subnet: six, four or sixteen bytes, and a prefix that fits. */
  predicate WellSized(s: Subnet) {
    match s.kind
    case Mac(a) => |a| == 6
    case Ipv4(a, length) => |a| == 4 && length <= 32
    case Ipv6(a, length) => |a| == 16 && length <= 128
  }

  function PrefixLength(s: Subnet): nat { if s.kind.Mac? then 48 else s.kind.prefixLen }

  predicate Matches(s: Subnet, address: Address) {
    WellSized(s) && |address.bytes| == |s.kind.address| &&
    match address
    case MacAddress(a) => s.kind.Mac? && s.kind.address == a
    case Ipv4Address(a) => s.kind.Ipv4? && MaskCmp(a, s.kind.address, s.kind.prefixLen) == 0
    case Ipv6Address(a) => s.kind.Ipv6? && MaskCmp(a, s.kind.address, s.kind.prefixLen) == 0
  }

  /** No owner, or one that is reachable. */
  predicate Usable(s: Subnet, nodes: Nodes) {
    s.owner.None? || (s.owner.value in nodes && nodes[s.owner.value].status.reachable)
  }

  /** The first match that is usable, or else the last match; `last` is the last one before. */
  function LookupFrom(subnets: seq<Subnet>, nodes: Nodes, address: Address, last: Option<Subnet>): Option<Subnet> {
    if subnets == [] then last
    else if !Matches(subnets[0], address) then LookupFrom(subnets[1..], nodes, address, last)
    else if Usable(subnets[0], nodes) then Some(subnets[0])
    else LookupFrom(subnets[1..], nodes, address, Some(subnets[0]))
  }

  method LookupReachable(subnets: seq<Subnet>, nodes: Nodes, address: Address) returns (result: Option<Subnet>)
    ensures result == LookupFrom(subnets, nodes, address, None)
  {
    result := None;
    var i := 0;
    while i < |subnets|
      invariant i <= |subnets|
      invariant LookupFrom(subnets, nodes, address, None) == LookupFrom(subnets[i..], nodes, address, result)
    {
      assert subnets[i..][1..] == subnets[i + 1..];
      if Matches(subnets[i], address) {
        result := Some(subnets[i]);
        if Usable(subnets[i], nodes) {
          break;
        }
      }
      i := i + 1;
    }
  }

  lemma {:induction false} LookupFinds(subnets: seq<Subnet>, nodes: Nodes, address: Address, last: Option<Subnet>)
    returns (k: nat)
    ensures var r := LookupFrom(subnets, nodes, address, last);
            && k <= |subnets|
            && (k == |subnets| ==> r == last && forall i :: 0 <= i < |subnets| ==> !Matches(subnets[i], address))
            && (k < |subnets| ==> r == Some(subnets[k]) && Matches(subnets[k], address))
            && (k < |subnets| && Usable(subnets[k], nodes) ==>
                  forall i :: 0 <= i < k ==> !(Matches(subnets[i], address) && Usable(subnets[i], nodes)))
            && (k < |subnets| && !Usable(subnets[k], nodes) ==>
                  forall i :: 0 <= i < |subnets| ==> !(Matches(subnets[i], address) && Usable(subnets[i], nodes)))
  {
    hide Matches, Usable;
    if subnets == [] {
      k := 0;
    } else if Matches(subnets[0], address) && Usable(subnets[0], nodes) {
      k := 0;
    } else {
      var hit := Matches(subnets[0], address);
      k := LookupFinds(subnets[1..], nodes, address, if hit then Some(subnets[0]) else last);
      forall i | 0 < i < |subnets| ensures subnets[i] == subnets[1..][i - 1] { }
      k := if hit && k == |subnets| - 1 then 0 else k + 1;
    }
  }

  /** Nothing is found only if nothing matches; and if what is found is not usable then no match is. */
  lemma LookupMisses(subnets: seq<Subnet>, nodes: Nodes, address: Address)
    ensures var r := LookupFrom(subnets, nodes, address, None);
            && (r.None? <==> forall s :: s in subnets ==> !Matches(s, address))
            && (r.Some? ==> r.value in subnets && Matches(r.value, address))
            && (r.Some? && !Usable(r.value, nodes) ==>
                  forall s :: s in subnets && Matches(s, address) ==> !Usable(s, nodes))
  {
    var k := LookupFinds(subnets, nodes, address, None);
    hide LookupFrom, Matches, Usable;
  }

  /** Two matches with the same prefix and nothing behind it are the same address. */
  lemma SamePrefixSameAddress(s: Subnet, t: Subnet, address: Address)
    requires Matches(s, address) && Matches(t, address) && PrefixLength(s) == PrefixLength(t)
    requires s.kind.Mac? || (PrefixOnly(s.kind.address, PrefixLength(s)) && PrefixOnly(t.kind.address, PrefixLength(t)))
    ensures s.kind == t.kind
  {
    if !s.kind.Mac? {
      var n := PrefixLength(s);
      ZeroMeansSamePrefix(address.bytes, s.kind.address, n);
      ZeroMeansSamePrefix(address.bytes, t.kind.address, n);
      MaskedBits(s.kind.address, n);
      MaskedBits(t.kind.address, n);
    }
  }

  /** In a sorted table what is found, if usable, is the best usable match: none has a longer prefix, and if the masks
      are canonical none with as long a prefix has a smaller weight. */
  lemma LookupIsMostSpecific(subnets: seq<Subnet>, nodes: Nodes, address: Address, s: Subnet)
    requires Sorted(subnets) && LookupFrom(subnets, nodes, address, None).Some?
    requires Usable(LookupFrom(subnets, nodes, address, None).value, nodes)
    requires s in subnets && Matches(s, address) && Usable(s, nodes)
    ensures var r := LookupFrom(subnets, nodes, address, None).value;
            && PrefixLength(s) <= PrefixLength(r)
            && (PrefixLength(s) == PrefixLength(r)
                && (s.kind.Mac? || (PrefixOnly(s.kind.address, PrefixLength(s))
                  && PrefixOnly(r.kind.address, PrefixLength(r))))
                ==> r.kind == s.kind && r.weight <= s.weight)
  {
    var k := LookupFinds(subnets, nodes, address, None);
    var i :| 0 <= i < |subnets| && subnets[i] == s;
    var r := subnets[k];
    assert i >= k && (i > k ==> CompareTinc(r, s) != Greater);
    hide LookupFrom, Usable, PrefixOnly, MaskCmp;
    if PrefixLength(s) == PrefixLength(r)
       && (s.kind.Mac? || (PrefixOnly(s.kind.address, PrefixLength(s))
         && PrefixOnly(r.kind.address, PrefixLength(r)))) {
      SamePrefixSameAddress(r, s, address);
      CompareBytesFacts(r.kind.address, s.kind.address, []);
    }
  }

  // Routing decisions.

  datatype Forwarding = Off | Internal | Kernel

  datatype RouteConfig = RouteConfig(forwarding: Forwarding, directOnly: bool)

  datatype DropReason =
    | TooShort(expectedAtLeast: nat, actual: nat)
    | UnknownDestination(destination: Address)
    | LoopbackToSource(owner: Name)
    | UnreachableOwner(unreachable: Name)
    | ForwardingDisabled
    | RoutingLoop(source: Name)
    | DirectOnly

  datatype Decision = Broadcast | Send(owner: Name, via: Option<Name>) | Drop(reason: DropReason)

  /** The relay towards the owner; the next hop when this node itself is the relay. */
  function RouteVia(v: GraphView, owner: Name): Option<Name> {
    if owner !in v.nodes then None
    else
      var route := v.nodes[owner].route;
      if route.via == Some(v.myself) then route.nextHop else route.via
  }

  predicate DirectOnlyAllows(v: GraphView, owner: Name, via: Option<Name>) {
    owner in v.nodes && via == Some(owner) && v.nodes[owner].route.nextHop == Some(owner)
  }

  function RouteToSubnetOwner(v: GraphView, source: Name, subnet: Subnet, config: RouteConfig): Decision {
    if subnet.owner.None? then Broadcast
    else
      var owner := subnet.owner.value;
      if owner == source then Drop(LoopbackToSource(owner))
      else if owner !in v.nodes || !v.nodes[owner].status.reachable then Drop(UnreachableOwner(owner))
      else if config.forwarding == Off && source != v.myself && owner != v.myself then Drop(ForwardingDisabled)
      else
        var via := RouteVia(v, owner);
        if via == Some(source) then Drop(RoutingLoop(source))
        else if config.directOnly && !DirectOnlyAllows(v, owner, via) then Drop(DirectOnly)
        else Send(owner, via)
  }

  function RouteTo(v: GraphView, subnets: seq<Subnet>, source: Name, address: Address, config: RouteConfig): Decision {
    var found := LookupFrom(subnets, v.nodes, address, None);
    if found.None? then Drop(UnknownDestination(address)) else RouteToSubnetOwner(v, source, found.value, config)
  }

  function RouteIpv4(v: GraphView, subnets: seq<Subnet>, source: Name, packet: Data, config: RouteConfig): Decision {
    if |packet| < 34 then Drop(TooShort(34, |packet|))
    else RouteTo(v, subnets, source, Ipv4Address(packet[30..34]), config)
  }

  function RouteIpv6(v: GraphView, subnets: seq<Subnet>, source: Name, packet: Data, config: RouteConfig): Decision {
    if |packet| < 54 then Drop(TooShort(54, |packet|))
    else RouteTo(v, subnets, source, Ipv6Address(packet[38..54]), config)
  }

  /** No usable match is more specific. */
  ghost predicate BestMatch(r: Subnet, subnets: seq<Subnet>, nodes: Nodes, address: Address) {
    && r in subnets && Matches(r, address)
    && forall s :: s in subnets && Matches(s, address) && Usable(s, nodes) ==> PrefixLength(s) <= PrefixLength(r)
  }

  /** What a decision tells: a packet is sent only to a reachable owner other than its source and never back to it, the
      owner of the most specific match that is usable; and an owner is called unreachable only when no match is
      usable. */
  lemma DecisionIsSafe(v: GraphView, subnets: seq<Subnet>, source: Name, address: Address, config: RouteConfig)
    requires Sorted(subnets)
    ensures var d := RouteTo(v, subnets, source, address, config);
            && (d.Send? ==>
                  && d.owner in ReachableNames(v.nodes) && d.owner != source && d.via != Some(source)
                  && (config.forwarding == Off ==> source == v.myself || d.owner == v.myself)
                  && (config.directOnly ==> d.via == Some(d.owner))
                  && exists r :: BestMatch(r, subnets, v.nodes, address) && r.owner == Some(d.owner))
            && (d.Drop? && d.reason.UnreachableOwner? ==>
                  forall s :: s in subnets && Matches(s, address) ==> !Usable(s, v.nodes))
            && (d.Drop? && d.reason.UnknownDestination? <==> forall s :: s in subnets ==> !Matches(s, address))
  {
    LookupMisses(subnets, v.nodes, address);
    var found, d := LookupFrom(subnets, v.nodes, address, None), RouteTo(v, subnets, source, address, config);
    if d.Send? {
      var r := found.value;
      forall s | s in subnets && Matches(s, address) && Usable(s, v.nodes) ensures PrefixLength(s) <= PrefixLength(r) {
        LookupIsMostSpecific(subnets, v.nodes, address, s);
      }
      assert BestMatch(r, subnets, v.nodes, address);
    }
    hide LookupFrom, Matches, PrefixLength, RouteVia, DirectOnlyAllows;
  }

  /** A subnet of the family of the address whose prefix has the same bits. */
  ghost predicate Covers(s: Subnet, address: Address) {
    && WellSized(s) && |address.bytes| == |s.kind.address|
    && (address.MacAddress? <==> s.kind.Mac?) && (address.Ipv4Address? <==> s.kind.Ipv4?)
    && SamePrefix(address.bytes, s.kind.address, PrefixLength(s))
  }

  /** No usable subnet that covers the address is more specific. */
  ghost predicate BestCover(r: Subnet, subnets: seq<Subnet>, nodes: Nodes, address: Address) {
    && r in subnets && Covers(r, address)
    && forall s :: s in subnets && Covers(s, address) && Usable(s, nodes) ==> PrefixLength(s) <= PrefixLength(r)
  }

  lemma MatchesMeansCovers(s: Subnet, address: Address)
    requires !address.MacAddress?
    ensures Matches(s, address) <==> Covers(s, address)
  {
    if WellSized(s) && !s.kind.Mac? && |address.bytes| == |s.kind.address| {
      ZeroMeansSamePrefix(address.bytes, s.kind.address, s.kind.prefixLen);
    }
  }

  /** Said of packets: one that is sent goes to a reachable owner of a subnet that covers the destination in its header,
      and no usable subnet that covers it is more specific; a packet finds no subnet exactly when none covers it. */
  lemma PacketFollowsLongestPrefix(v: GraphView, subnets: seq<Subnet>, source: Name, packet: Data, config: RouteConfig,
      six: bool)
    requires Sorted(subnets)
    ensures var d := if six then RouteIpv6(v, subnets, source, packet, config)
              else RouteIpv4(v, subnets, source, packet, config);
            if |packet| < 14 + if six then 40 else 20 then d.Drop? && d.reason.TooShort?
            else
              var address := if six then Ipv6Address(packet[38..54]) else Ipv4Address(packet[30..34]);
              && (d.Send? ==>
                    && d.owner in ReachableNames(v.nodes)
                    && exists r :: BestCover(r, subnets, v.nodes, address) && r.owner == Some(d.owner))
              && (d == Drop(UnknownDestination(address)) <==> forall s :: s in subnets ==> !Covers(s, address))
  {
    if |packet| >= 14 + if six then 40 else 20 {
      var address := if six then Ipv6Address(packet[38..54]) else Ipv4Address(packet[30..34]);
      DecisionFollowsLongestPrefix(v, subnets, source, address, config);
    }
    hide RouteTo, BestCover, Covers, Sorted;
  }

  lemma DecisionFollowsLongestPrefix(v: GraphView, subnets: seq<Subnet>, source: Name, address: Address,
      config: RouteConfig)
    requires Sorted(subnets) && !address.MacAddress?
    ensures var d := RouteTo(v, subnets, source, address, config);
            && (d.Send? ==>
                  && d.owner in ReachableNames(v.nodes)
                  && exists r :: BestCover(r, subnets, v.nodes, address) && r.owner == Some(d.owner))
            && (d == Drop(UnknownDestination(address)) <==> forall s :: s in subnets ==> !Covers(s, address))
  {
    DecisionIsSafe(v, subnets, source, address, config);
    forall s | s in subnets ensures Matches(s, address) <==> Covers(s, address) {
      MatchesMeansCovers(s, address);
    }
    hide RouteTo, Matches, Covers, Usable, PrefixLength, Sorted;
    var d := RouteTo(v, subnets, source, address, config);
    if d.Send? {
      var r :| BestMatch(r, subnets, v.nodes, address) && r.owner == Some(d.owner);
      assert BestCover(r, subnets, v.nodes, address);
    }
    UnknownNamesDestination(v, subnets, source, address, config);
  }

  lemma UnknownNamesDestination(v: GraphView, subnets: seq<Subnet>, source: Name, address: Address, config: RouteConfig)
    ensures var d := RouteTo(v, subnets, source, address, config);
            d.Drop? && d.reason.UnknownDestination? ==> d.reason.destination == address
  {
    hide LookupFrom;
  }

  /** While routes are up to date, every packet that is sent has somewhere to go: a reachable node, from which the owner
      is reached over a real path, or which is known to be reachable directly. */
  lemma SendHasReachableRelay(v: GraphView, subnets: seq<Subnet>, source: Name, address: Address, config: RouteConfig)
    requires UpToDate(v) && RouteTo(v, subnets, source, address, config).Send?
    ensures var d := RouteTo(v, subnets, source, address, config);
            && d.via.Some? && d.via.value in ReachableNames(v.nodes)
            && (DirectlyReachable(v.Searched(), d.via.value)
                || exists w :: Realised(v.Searched(), d.owner, d.via.value, w))
  {
    hide *;
    SendMeans(v, subnets, source, address, config);
    RelayWhenUpToDate(v, RouteTo(v, subnets, source, address, config).owner);
  }

  lemma SendMeans(v: GraphView, subnets: seq<Subnet>, source: Name, address: Address, config: RouteConfig)
    requires RouteTo(v, subnets, source, address, config).Send?
    ensures var d := RouteTo(v, subnets, source, address, config);
            d.owner in ReachableNames(v.nodes) && d.via == RouteVia(v, d.owner)
  {
    hide LookupFrom;
  }

  lemma RelayWhenUpToDate(v: GraphView, owner: Name)
    requires UpToDate(v) && owner in ReachableNames(v.nodes)
    ensures var (g, via) := (v.Searched(), RouteVia(v, owner));
            && via.Some? && via.value in ReachableNames(v.nodes)
            && (DirectlyReachable(g, via.value) || exists w :: Realised(g, owner, via.value, w))
  {
    hide UpToDate, NodeSound, IsReachableSet, DirectlyReachable, Realised, Reachable;
    UpToDateIsSound(v);
    var g, node := v.Searched(), v.nodes[owner];
    RelayIsReachable(g, owner, node);
    SourceIsDirect(g, owner, node);
    InReachableSet(g, ReachableNames(v.nodes), SourceOf(node).value.via);
    InReachableSet(g, ReachableNames(v.nodes), SourceOf(node).value.nextHop);
    hide ReachableNames, SourceOf;
  }

  lemma InReachableSet(g: Mesh, r: set<Name>, n: Name)
    requires IsReachableSet(g, r) && Reachable(g, n)
    ensures n in r
  {
    hide Reachable;
  }

  lemma SourceIsDirect(g: Mesh, n: Name, node: Node)
    requires NodeSound(g, n, node)
    ensures SourceOf(node).Some? && DirectlyReachable(g, SourceOf(node).value.via)
  {
  }

  lemma RelayIsReachable(g: Mesh, n: Name, node: Node)
    requires NodeSound(g, n, node)
    ensures var src := SourceOf(node).value;
            && node.route.via == Some(src.via) && node.route.nextHop == Some(src.nextHop)
            && Reachable(g, src.via) && Reachable(g, src.nextHop)
            && (n != g.myself ==> Realised(g, n, src.nextHop, src.weightedDistance))
            && (n == g.myself ==> src.nextHop == n && DirectlyReachable(g, n))
  {
    var src := SourceOf(node).value;
    var p :| WalkTo(g, p, src.via) && IsDirectWalk(g.edges, p);
    if n != g.myself {
      var q :| WalkTo(g, q, n) && |q| >= 2 && q[1] == src.nextHop && WalkWeight(g.edges, q) == src.weightedDistance;
      FirstHopIsReachable(g, q);
    }
  }

  lemma {:induction false} FirstHopIsReachable(g: Mesh, q: seq<Name>)
    requires IsWalk(g.edges, q) && |q| >= 2 && q[0] == g.myself
    ensures Reachable(g, q[1])
    decreases |q|
  {
    if |q| == 2 {
      assert WalkTo(g, q, q[1]);
    } else {
      FirstHopIsReachable(g, q[..|q| - 1]);
    }
  }
}
