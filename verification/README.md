# Verified model of tinc's topology, link and packet logic

The project models the parts of the program that decide who can reach whom, how two nodes agree on keys, how a byte
stream becomes messages, and what happens to packets on the way, and proves what those parts are for. It needs only
Dafny 4.11: `dafny verify dfyconfig.toml`.

**Routing graph** (`Topology`, `Routes`, `Progress`, `Trees`, `Prim`, `Graph`, `Agreement`, `Recompute`). The
breadth-first search that may visit a node again and the tree scan that starts over after each addition are methods on a
class. They are tied to a step relation and to a tree function, and the lemmas are about those: termination, soundness with
indirect edges, optimality without them, minimality of the tree, and that all of it depends on one component only.

**Network state and broadcasting** (`Subnets`, `Messages`, `State`, `Purge`, `Upkeep`, `Broadcast`, `Coordinator`,
`Privacy`, `MetaNetwork`, `Sync`, `PastRequests`). What each message does to a node, that routes stay right from the
first recomputation on, what a purge leaves, that a flooded packet arrives everywhere once, that nobody can change what
a node says about itself, and that a new peer that is told everything agrees with its informant.

**SPTPS** (`Replay`, `Sptps`, `SptpsLink`, `Datagrams`, `KeyExchange`, `KeyLink`). The replay bitmap refines a set. Two
sessions on FIFO links, a datagram session behind a lossy network, and two key exchanges on FIFO links are state
machines; the theorems are about every run. Cryptography is symbolic: a signature names its signer and what was signed,
a shared secret is an unordered pair of ephemeral keys, a ciphertext is the record with the key and number that seal it,
and every random draw is an argument.

**Streams** (`Framing`, `SafeStreams`, `Misreading`, `MetaConnection`, `Cfb`). What a stream means is defined without
reference to how it arrives, and compared with what the driver does. Session, parser and text decoding are parameters,
so the result holds for any of them.

**Packets** (`Checksum`, `Headers`, `Fragment`, `Masks`, `Lookup`) and **text** (`Base64`, `Text`, `Wire`).

Functions of the program that update objects are methods of classes here, each proved against a specification function
or relation over values. The lemmas about those specifications are the results.

Six results say where a property one would expect fails, and prove exactly when it holds:

* A stream cut inside a body can be misread: while a body is incomplete, the decoder goes on to look for a line or a
  record in the part it has (`Misreading.SplittingCanMatter`, `SafeStreams.SplittingNeedsSafeFrames`).
* An SPTPS application record sent before the first handshake is complete is accepted for sending and refused on arrival
  (`SptpsLink.EarlyRunExists`, `SptpsLink.NoDeliveryFails`).
* Clamping the segment size updates the TCP checksum wrongly when the option value lies at an odd offset and does not
  change by a multiple of 257 (`Headers.ClampCanBreakChecksum`, `Headers.ClampKeepsChecksum`).
* The replay window starts over when the largest sequence number is accepted (`Replay.ZeroIsAcceptedTwice`,
  `Replay.RunRefines`).
* Empty SPTPS data does not survive a key message (`Wire.EmptyPayloadIsLost`).
* A packet without payload has no fragments, and one whose last fragment would start beyond thirteen bits does not
  reassemble (`Fragment.HeaderAloneIsLost`, `Fragment.FarOffsetIsLost`, `Fragment.FragmentingIsUndone`).

The table lists the results first, area by area, and then the operations of the program they speak of.

## Model

| member | source | states |
|---|---|---|
| `Routes.SearchIsSound` | crates/tinc-core/src/graph.rs:434-507 | With any edges marked indirect: the search visits exactly the nodes joined to this one by two-way links; the weighted distance of each is that of a real walk whose first step is the next hop; the relay it names is reachable over links that are not indirect; an unvisited node has no route. |
| `Routes.SearchIsOptimal` | crates/tinc-core/src/graph.rs:415-508 | Without indirect edges the chain of previous edges from a reachable node back to this one is a walk with the least hops and, among those, the least weight; distance, weighted distance and next hop are its own. |
| `Routes.SearchIsDeterministic` | crates/tinc-core/src/graph.rs:415-508 | However many steps are taken, the search has one result. |
| `Progress.StepIsProgress` | crates/tinc-core/src/graph.rs:434-507 | A turn that changes no node shortens the queue, so turns cannot go on for ever. |
| `Progress.SearchTerminates` | crates/tinc-core/src/graph.rs:415-508 | For any edges, with weights that are not negative, the search comes to rest. |
| `Prim.ScanFindsMinimumSpanningTree` | crates/tinc-core/src/graph.rs:570-595 | From any start in a component, the scan over edges sorted by weight builds a spanning tree of minimal weight, a link weighing the smaller of its two directions. |
| `Prim.KruskalIsMinimumSpanningTree` | crates/tinc-core/src/graph.rs:557-596 | Over the reachable nodes the marked links form a minimum spanning tree: symmetric, connected, one link fewer than nodes, and no spanning tree weighs less. |
| `Prim.KruskalAgrees` | crates/tinc-core/src/graph.rs:557-596 | The tree depends only on the edges that leave the reachable nodes. |
| `Agreement.SearchesAgree` | crates/tinc-core/src/graph.rs:415-508 | Two searches over graphs that agree on the links of the component find the same routes there, whatever else the graphs hold and whatever the nodes said before. |
| `Recompute.RecomputeIsSound` | crates/tinc-core/src/state.rs:70-77 | After recomputing, reachable means joined by two-way links, every route is sound, and the broadcast links are a minimum spanning tree of exactly the reachable nodes. |
| `Recompute.RecomputeIsOptimal` | crates/tinc-core/src/state.rs:70-77 | Without indirect edges every reachable node then has a best route. |
| `Recompute.UpToDateIsSound` | crates/tinc-core/src/state.rs:70-77 | The same of every graph that is up to date, however long ago it was recomputed: reachability, routes and tree are what its edges imply. |
| `Recompute.UpToDateIsOptimal` | crates/tinc-core/src/state.rs:70-77 | And without indirect edges every reachable node has a best route. |
| `Upkeep.UpToDateOnceRecomputed` | crates/tinc-core/src/state.rs:36-122 | At every point of the life of a node, whatever messages, purges and recomputations it has undergone, its graph is up to date if and only if routes have been recomputed at least once. |
| `Upkeep.LifeIsTidy` | crates/tinc-core/src/state.rs:36-122 | At every point of the life of a node edges mention existing nodes only, this node is present, the table is sorted, and no owned subnet is listed twice. |
| `Upkeep.LifeGoesOn` | crates/tinc-core/src/state.rs:36-122 | No change of any kind leads out of the states that a life passes through. |
| `Upkeep.HandledKeepsUpToDate` | crates/tinc-runtime/src/connection.rs:306-345 | No event a coordinator handles puts the graph out of date, and activating a connection brings it up to date. |
| `Recompute.RecomputedIsUpToDate` | crates/tinc-core/src/state.rs:70-77 | A recomputed graph is a fixed point: searching it again finds what it already holds. |
| `Subnets.CompareEqual` | crates/tinc-core/src/subnet.rs:103-568 | Which subnets compare equal, and that less and greater are converses. |
| `Subnets.CompareTransitive` | crates/tinc-core/src/subnet.rs:103-568 | The order is transitive as long as an ownerless subnet never shares kind and weight with an owned one. |
| `Purge.PurgeKeepsReachable` | crates/tinc-core/src/state.rs:83-122 | With reachability up to date a purge changes no reachable node, nor the tree, and reports no change. |
| `Purge.PurgeKeepsOnlyReferenced` | crates/tinc-core/src/state.rs:83-122 | Without strict subnets and autoconnect an unreachable node survives if and only if a reachable node has an edge to it. |
| `Purge.PurgeIsIdempotent` | crates/tinc-core/src/state.rs:83-122 | A second purge changes nothing. |
| `Broadcast.SameTree` | crates/tinc-core/src/graph.rs:557-596 | Nodes of one component that hold the same edges compute the same tree, which spans the component. |
| `Broadcast.BroadcastReachesEveryNodeOnce` | crates/tinc-runtime/src/engine.rs:467-560 | In every run of a broadcast over that tree no node writes the packet twice and the origin never does; the run is over exactly when all others have written it, after one delivery each. |
| `Broadcast.FlyingPacketsArrive` | crates/tinc-runtime/src/engine.rs:467-560 | A run can always go on while a packet is on its way, so no run stops early. |
| `Replay.CheckRefines` | crates/tinc-runtime/src/sptps.rs:700-766 | The circular bitmap refines a set of numbers: a number is accepted exactly when it is new and, if behind, inside the window; the refinement goes on unless the largest number there is was accepted. |
| `Replay.VerifyForetells` | crates/tinc-runtime/src/sptps.rs:691-698 | Verifying gives the answer accepting would. |
| `Replay.RunRefines` | crates/tinc-runtime/src/sptps.rs:691-793 | After any sequence of numbers the window refines the set of those accepted if and only if the largest number there is was not among them; then no number was accepted twice. |
| `Replay.NothingIsAcceptedTwice` | crates/tinc-runtime/src/sptps.rs:691-793 | Unless the largest number was accepted, none is accepted twice, even across a jump into the far future, and the counter counts the accepted. |
| `Replay.ZeroIsAcceptedTwice` | crates/tinc-runtime/src/sptps.rs:700-766 | A run in which it happens: with a window of one byte, the numbers 0, 2^32 - 1 and 0 are all accepted. |
| `Replay.WrapForgets` | crates/tinc-runtime/src/sptps.rs:759-765 | The exception: accepting the largest number starts the window over, and an old number is accepted again. |
| `Sptps.NothingIsEverMissing` | crates/tinc-runtime/src/sptps.rs:1357-1540 | Whatever a session is given, by whomever and in whatever order, it never reports that something its state should hold is missing. |
| `Sptps.DecodeInOrder` | crates/tinc-runtime/src/sptps.rs:900-1105 | Either codec opens the next record under its current key and moves on by one. |
| `Datagrams.RecordsArriveAtMostOnce` | crates/tinc-runtime/src/sptps.rs:900-1035 | Behind a network that loses, repeats and reorders records and adds others, over any rekeying: everything the application is handed was sent, and nothing that was sent is handed over twice. |
| `Datagrams.OneArrival` | crates/tinc-runtime/src/sptps.rs:691-1035 | An arrival is handed over, unchanged, exactly when it is an application record sealed under the current key and the window admits its number. |
| `Datagrams.SessionTracks` | crates/tinc-runtime/src/sptps.rs:691-1035 | The window of any datagram session refines the set of some accepted numbers, whatever it has received since it started, unless the largest number arrived. |
| `SptpsLink.DeliveriesSucceed` | crates/tinc-runtime/src/sptps.rs:1345-1540 | Two sessions on FIFO links, with application records and rekeying by either side in any order and any number: every delivery so far has succeeded if and only if each application record sent before its sender was established is still on its way; then records were opened with the key and number they were sealed with, and have arrived in order, each once. No handshake state is ever missing. |
| `SptpsLink.NoDeliveryFails` | crates/tinc-runtime/src/sptps.rs:1357-1540 | No delivery fails, now or among those still to come, if and only if no side has sent an application record before it was established. |
| `SptpsLink.EarlyRunExists` | crates/tinc-runtime/src/sptps.rs:1345-1351 | Such a send is accepted: after one step in which the initiator sends an empty record at once, some delivery still to come fails. |
| `SptpsLink.IdleKeysAreSwapped` | crates/tinc-runtime/src/sptps.rs:1357-1540 | Whenever both sides are idle, nothing is on its way and nothing was sent too early, each side's outgoing key is the other's incoming key and the two directions differ. |
| `SptpsLink.EarlyRecordIsRefused` | crates/tinc-runtime/src/sptps.rs:1345-1351 | A record sent before the first handshake is complete is refused by whoever receives it, whatever keys the receiver has. |
| `KeyLink.RoundsMatch` | crates/tinc-runtime/src/key_exchange.rs:103-260 | Two nodes on FIFO links, any number of rounds started by either side at any time: no call fails, so no session is ever missing, and the sessions the two hand out pair up round by round with one label and swapped keys. |
| `KeyLink.SilenceIsCompletion` | crates/tinc-runtime/src/key_exchange.rs:166-260 | When nothing is on its way no session is left half open and both sides have finished the same rounds. |
| `KeyLink.LowerNameInitiates` | crates/tinc-runtime/src/key_exchange.rs:103-192 | Whenever both sides are asking at once, at any point of any run and wherever the requests are, the session each is handed next is the one the lower name initiated, and it comes before the links fall silent. |
| `Framing.SplittingMattersUnlessClean` | crates/tinc-runtime/src/meta.rs:480-614 | For a stream that has a meaning when read strictly: every split of every prefix has that meaning if and only if at each point the partial body would not be taken for a line or record and the next byte finds room. |
| `Framing.SplittingDoesNotMatter` | crates/tinc-runtime/src/meta.rs:480-504 | If one call with the whole stream succeeds, announced bodies fit and no partial body is misread, every split gives the same events, outbound bytes and final state. |
| `SafeStreams.SplittingNeedsSafeFrames` | crates/tinc-runtime/src/meta.rs:480-614 | The same in terms of bytes a sender can look at: every split of every prefix has the meaning of the stream if and only if each line in the clear fits the buffer and each announced body fits it and holds nothing complete before its last byte. |
| `SafeStreams.BodyIsSafe` | crates/tinc-runtime/src/meta.rs:335-366 | A body can be cut anywhere exactly when the bytes before its last one, read as lines or records, hold nothing complete: no newline, or no record as short as that. |
| `Misreading.RelayReadsText` | crates/tinc-runtime/src/meta.rs:335-345 | There are connections as the next row speaks of. |
| `Misreading.SplittingCanMatter` | crates/tinc-runtime/src/meta.rs:335-400 | The line "17 3" and the packet "8", newline, "A" in one piece are an announcement and a packet; cut before the last byte, a ping is read out of the packet. So it is on every active connection in the clear, with the program's own message parser. |
| `Checksum.FullChecksumVerifies` | crates/tinc-core/src/route.rs:319-332 | Writing the checksum of blanked data makes the data verify. |
| `Checksum.UpdateKeepsVerifying` | crates/tinc-core/src/route.rs:1473-1481 | After the header update the data verifies exactly when it did before. |
| `Checksum.TransportUpdateAgrees` | crates/tinc-core/src/route.rs:1483-1490 | The transport update gives the full recomputation if and only if the word lies at an even offset or changes by a multiple of 257. |
| `Headers.TtlKeepsChecksum` | crates/tinc-core/src/route.rs:1424-1451 | The TTL goes down by one, only the checksum changes besides, and the header verifies exactly when it did before. |
| `Headers.ClampKeepsChecksum` | crates/tinc-core/src/route.rs:720-826 | An exact TCP checksum stays exact if and only if the option value lies at an even offset or went down by a multiple of 257. |
| `Headers.ClampCanBreakChecksum` | crates/tinc-core/src/route.rs:720-826 | A segment whose exact checksum is wrong after clamping: the value lies at offset 23 and goes down by 114. |
| `Headers.ClampIsIdempotent` | crates/tinc-core/src/route.rs:720-826 | Clamping again changes nothing. |
| `Fragment.MtuIsNeverTooSmall` | crates/tinc-core/src/route.rs:912-936 | A packet that passes the checks is fragmented whatever the MTU: the error for a small MTU cannot occur. |
| `Fragment.FragmentingIsUndone` | crates/tinc-core/src/route.rs:828-906 | Reassembly by section 3.2 of RFC 791 gives the packet back if and only if it has a payload and the last offset fits thirteen bits. |
| `Fragment.HeaderAloneIsLost` | crates/tinc-core/src/route.rs:828-906 | A packet of 34 bytes, headers alone, has no fragments. |
| `Fragment.FarOffsetIsLost` | crates/tinc-core/src/route.rs:828-906 | A packet of 634 bytes with the largest offset has two fragments at the smallest MTU, and they do not reassemble to it. |
| `Fragment.EachFragment` | crates/tinc-core/src/route.rs:828-906 | Every fragment is at most the larger of the MTU and 590 bytes, its header verifies and otherwise is the packet's, and it can be fragmented again. |
| `Fragment.FragmentingAgainIsUndone` | crates/tinc-core/src/route.rs:828-906 | Fragments of fragments, each for its own MTU, still reassemble to the packet. |
| `Masks.ZeroMeansSamePrefix` | crates/tinc-core/src/subnet.rs:476-495 | The comparison is zero exactly when the prefixes agree bit by bit, and exactly when the masked addresses are equal. |
| `Masks.MaskedBits` | crates/tinc-core/src/subnet.rs:497-530 | Masking keeps the bits of the prefix and clears the others. |
| `Lookup.LookupMisses` | crates/tinc-core/src/route.rs:1642-1665 | Nothing is found only if nothing matches, and an unusable result means no match is usable. |
| `Lookup.LookupIsMostSpecific` | crates/tinc-core/src/route.rs:1642-1665 | In a sorted table no usable match has a longer prefix than what is found, nor, with canonical masks, an equal prefix and a smaller weight. |
| `Lookup.DecisionIsSafe` | crates/tinc-core/src/route.rs:1673-1746 | A packet is sent only to a reachable owner of the most specific usable match, not to its source and not back through it; an unreachable owner means no match was usable. |
| `Lookup.PacketFollowsLongestPrefix` | crates/tinc-core/src/route.rs:1500-1550 | A packet is sent to a reachable owner of a subnet whose prefix has the same bits as the destination in the header, and no usable subnet that covers the destination is more specific; it is dropped as unknown exactly when no subnet covers it, and as too short when it has no full header. |
| `Lookup.SendHasReachableRelay` | crates/tinc-core/src/route.rs:1729-1739 | While routes are up to date every packet that is sent has a reachable next node, on a real path to the owner or known to be reachable directly. |
| `Coordinator.HandledKeepsClaims` | crates/tinc-runtime/src/connection.rs:393-485 | No event changes the subnets of this node, and only an activation changes an edge that leaves it, the one to that peer. |
| `Coordinator.RunKeepsClaims` | crates/tinc-runtime/src/connection.rs:306-543 | Over any run on any number of connections, in either mode, the subnets of this node stay and its outgoing edges change only towards peers whose connections became active. |
| `Privacy.ActivatedAtMostOnce` | crates/tinc-runtime/src/meta.rs:243-504 | Whatever arrives on a connection, in whatever pieces, activates it at most once, and never again once it is active. |
| `Privacy.TunnelServerServesOnePeer` | crates/tinc-runtime/src/connection.rs:306-543 | Over any run of a tunnel server, everything it sends because of what it reads from one connection goes to one and the same peer. |
| `Coordinator.TunnelServerStaysPrivate` | crates/tinc-runtime/src/connection.rs:487-543 | A tunnel server sends only to the peer it hears from, if the connection is activated for one peer only. |
| `Sync.SyncReproduces` | crates/tinc-runtime/src/connection.rs:545-591 | A fresh node that applies the synchronisation messages has exactly the owned subnets, in order and up to expiry, and exactly the addressed edges. |
| `Sync.SyncedNodesAgree` | crates/tinc-runtime/src/connection.rs:545-563 | If all edges carry addresses and the new node lies in the component, the two agree on the reachable nodes and the tree. |
| `Upkeep.ToldNodesAgree` | crates/tinc-runtime/src/connection.rs:545-563 | The same of any node at any point of its life after the first recomputation: the peer it tells everything has its edges, its owned subnets in order and up to expiry, its reachable nodes and its tree. |
| `Base64.EncodingReturns` | crates/tinc-core/src/utils.rs:89-130 | Decoding returns what was encoded, in either alphabet. |
| `Wire.SubnetReturns` | crates/tinc-core/src/subnet.rs:414-474 | A printed subnet with its optional prefix and weight is read back. |
| `Wire.PrintingReturns` | crates/tinc-core/src/protocol.rs:198-363 | Printing a well-formed message and parsing the line gives the message back. |
| `Wire.PayloadReturns` | crates/tinc-core/src/protocol.rs:536-635 | SPTPS bytes put into a key message survive base64, printing, parsing and decoding. |
| `Wire.EmptyPayloadIsLost` | crates/tinc-core/src/protocol.rs:536-635 | The exception: empty data leaves an empty field that the line loses, so no empty payload survives. |
| `PastRequests.SeenExactlyWhenRecent` | crates/tinc-core/src/protocol.rs:828-847 | A request counts as seen exactly when an equal one was let through less than the retention time ago. |
| `Cfb.StreamingIsBlockwise` | crates/tinc-runtime/src/legacy_meta.rs:1342-1371 | Byte by byte from the start of a block is CFB-128 block by block, for any block cipher. |
| `Cfb.StreamsAgree` | crates/tinc-runtime/src/legacy_meta.rs:1007-1029 | However either side cuts the stream, encryption is CFB-128 of section 6.3 of NIST SP 800-38A and decryption returns the plaintext. |
| `Graph.Graph.AddNode` | crates/tinc-core/src/graph.rs:287-294 | Refuses a name that is taken and otherwise adds exactly that node; every edge still ends at existing nodes. |
| `Graph.Graph.EnsureNode` | crates/tinc-core/src/graph.rs:300-309 | Creates the node if and only if the name is new, and says which. |
| `Graph.Graph.UpsertEdge` | crates/tinc-core/src/graph.rs:330-352 | An edge whose ends exist replaces the one under its key; the result tells insertion, change and no change apart, and a missing end is an error that changes nothing. |
| `Graph.Graph.RemoveEdge` | crates/tinc-core/src/graph.rs:354-358 | Removes one direction of a link and its mark in the tree, nothing else. |
| `Graph.Graph.RemoveEdgesFrom` | crates/tinc-core/src/graph.rs:360-375 | Removes exactly the edges that leave the node and returns them in key order. |
| `Graph.Graph.RemoveNode` | crates/tinc-core/src/graph.rs:381-391 | Removes the node together with every edge that starts or ends at it; myself is never removed. |
| `Graph.Graph.SsspBfs` | crates/tinc-core/src/graph.rs:415-508 | The queue loop ends, by the measure of unvisited nodes, then doubled weights plus indirect flags, then queue length, and its result is one the step relation reaches from the reset nodes. |
| `Graph.Graph.MstKruskal` | crates/tinc-core/src/graph.rs:557-596 | The restarting scan ends and marks exactly the tree that the lemmas about Kruskal speak of, for the nodes that are reachable. |
| `Graph.Scan` | crates/tinc-core/src/graph.rs:570-595 | The scan with its index reset to zero after every addition adds the first crossing link each time, until none crosses. |
| `Graph.Graph.ReconcileReachabilityAt` | crates/tinc-core/src/graph.rs:514-555 | Every node whose mark differs from the last search is turned and reported, in name order; all others are left alone. |
| `Subnets.SubnetTable.Add` | crates/tinc-core/src/subnet.rs:307-310 | The table stays sorted and its multiset grows by the one entry, placed behind its equals. |
| `Subnets.SubnetTable.AddUnique` | crates/tinc-core/src/subnet.rs:312-325 | Inserts if and only if nothing compares equal; a table that never holds an owned and an ownerless entry alike stays so. |
| `Subnets.SubnetTable.RemoveOwnerSubnet` | crates/tinc-core/src/subnet.rs:341-393 | Removes that entry alone, if there is one. |
| `Subnets.SubnetTable.RemoveOwner` | crates/tinc-core/src/subnet.rs:353-367 | Removes exactly the entries of the owner, keeping the order of both lists. |
| `State.NetworkState.RecomputeRoutesAt` | crates/tinc-core/src/state.rs:70-77 | Search, reconcile and tree in that order; the report lists the nodes that turned. |
| `State.NetworkState.ApplyAddSubnet` | crates/tinc-core/src/state.rs:124-135 | The owner exists afterwards and the table holds the subnet once. |
| `State.NetworkState.ApplyDeleteSubnet` | crates/tinc-core/src/state.rs:137-143 | Exactly the first entry that compares equal disappears, if there is one, and the result names it. |
| `State.NetworkState.ApplyAddEdge` | crates/tinc-core/src/state.rs:145-169 | Never fails: both ends are created first. The edge carries the addresses of the message, routes are recomputed, and the result tells the nodes created, what happened to the edge, and whose reachability turned. |
| `State.NetworkState.ApplyDeleteEdge` | crates/tinc-core/src/state.rs:171-179 | One direction disappears and routes are recomputed even if it was not there. |
| `State.NetworkState.ApplyKeyChanged` | crates/tinc-core/src/state.rs:181-193 | Only the key flag of a node without SPTPS changes. |
| `State.NetworkState.ApplyUdpInfo` | crates/tinc-core/src/state.rs:195-220 | Ignored for this node and for strangers; otherwise the address is learned and MTU probing starts over. |
| `State.NetworkState.ApplyMtuInfo` | crates/tinc-core/src/state.rs:222-240 | Changes a provisional MTU only; the result tells the MTU before and whether it changed. |
| `State.NetworkState.ApplyMetaMessageAt` | crates/tinc-core/src/state.rs:36-64 | No message makes the state fail or breaks it: edges mention only existing nodes, this node is present, the table is sorted; the new state is the one the message means, and the mutation that is returned says what happened. |
| `State.NetworkState.PurgeUnreachableAt` | crates/tinc-core/src/state.rs:83-122 | Two passes and a recomputation; the result lists the edges that left an unreachable node, node by node, the entries such a node owned unless they are kept strictly, and in name order the nodes that went. |
| `Broadcast.BroadcastTargets` | crates/tinc-runtime/src/engine.rs:515-560 | The nodes a packet is passed on to in each broadcast mode, in name order, each once, never this node and never back towards the source. |
| `Broadcast.BroadcastPacket` | crates/tinc-runtime/src/engine.rs:467-513 | A packet from elsewhere is written to the device; it is offered to the targets in name order whether or not an earlier send failed, and those that succeed are reported in that order. |
| `Replay.SptpsReplayWindow.Accept` | crates/tinc-runtime/src/sptps.rs:691-793 | The bitmap updated in place is the window the lemmas speak of. |
| `Replay.SptpsReplayWindow.Verify` | crates/tinc-runtime/src/sptps.rs:695-698 | Gives the verdict that accepting the number now would, without changing the window. |
| `Sptps.SptpsHandshakeSession.constructor` | crates/tinc-runtime/src/sptps.rs:1240-1264 | A new session has queued its KEX. |
| `Sptps.SptpsHandshakeSession.AcceptKex` | crates/tinc-runtime/src/sptps.rs:1419-1431 | Stores the peer's KEX once; an initiator signs at once. |
| `Sptps.SptpsHandshakeSession.AcceptSig` | crates/tinc-runtime/src/sptps.rs:1433-1485 | Checks the signature, derives the keys, replies, and switches the outgoing key; on a rekey the incoming key waits. |
| `Sptps.SptpsHandshakeSession.AcceptAck` | crates/tinc-runtime/src/sptps.rs:1487-1502 | Installs the waiting incoming key. |
| `Sptps.SptpsHandshakeSession.AcceptHandshake` | crates/tinc-runtime/src/sptps.rs:1387-1417 | The handshake state machine. |
| `Sptps.SptpsHandshakeSession.Receive` | crates/tinc-runtime/src/sptps.rs:1357-1373 | Decodes a record and hands it to the handshake or to the application. |
| `Sptps.SptpsHandshakeSession.Force` | crates/tinc-runtime/src/sptps.rs:1375-1385 | Starts a rekey only from an established idle session. |
| `Sptps.SptpsHandshakeSession.Send` | crates/tinc-runtime/src/sptps.rs:1345-1351 | Seals an application record. |
| `KeyExchange.SptpsKeyExchange.Start` | crates/tinc-runtime/src/key_exchange.rs:103-128 | Starts a session unless one is pending or the key is unknown; the first record travels as a request. |
| `KeyExchange.SptpsKeyExchange.ReceiveRequest` | crates/tinc-runtime/src/key_exchange.rs:166-192 | Answers a request, except that the lower name keeps its own. |
| `KeyExchange.SptpsKeyExchange.ReceiveExisting` | crates/tinc-runtime/src/key_exchange.rs:194-216 | Feeds a record to the pending session. |
| `KeyExchange.SptpsKeyExchange.Receive` | crates/tinc-runtime/src/key_exchange.rs:130-278 | Dispatches a message addressed to this node. |
| `MetaConnection.MetaStreamDecoder.PushLimited` | crates/tinc-runtime/src/meta.rs:307-317 | Buffers the bytes unless that exceeds the limit. |
| `MetaConnection.MetaStreamDecoder.NextPlaintextFrame` | crates/tinc-runtime/src/meta.rs:335-345 | A complete body, or else the text up to the first newline, even inside an incomplete body. |
| `MetaConnection.MetaStreamDecoder.NextSptpsFrame` | crates/tinc-runtime/src/meta.rs:347-386 | A complete body, or else a record of the length the first two bytes say. |
| `MetaConnection.MetaConnectionAuth.ReceiveMetaMessage` | crates/tinc-runtime/src/meta.rs:125-137 | Only introductions and acknowledgements are expected before activation. |
| `MetaConnection.MetaConnectionAuth.AcceptId` | crates/tinc-runtime/src/meta.rs:183-241 | The checks on a peer's introduction, in order, and the session or the acknowledgement that follows. |
| `MetaConnection.MetaConnectionAuth.AcceptAck` | crates/tinc-runtime/src/meta.rs:243-273 | Activation, with the negotiated weight and options. |
| `MetaConnection.MetaConnectionAuth.ReceiveSptpsRecord` | crates/tinc-runtime/src/meta.rs:139-181 | A record moves the session; completing the first handshake asks for an acknowledgement. |
| `MetaConnection.MetaConnectionDriver.HandleOneFrame` | crates/tinc-runtime/src/meta.rs:616-640 | Each kind of frame is handled its own way. |
| `MetaConnection.MetaConnectionDriver.ApplyStep` | crates/tinc-runtime/src/meta.rs:642-671 | Outbound records, the acknowledgement and the events, in that order; the recursion through application records ends. |
| `MetaConnection.MetaConnectionDriver.HandleLine` | crates/tinc-runtime/src/meta.rs:702-731 | Authentication before activation, packet announcements after it. |
| `MetaConnection.MetaConnectionDriver.HandleSptpsApplication` | crates/tinc-runtime/src/meta.rs:673-700 | An announced packet must have the announced length; anything else is a line. |
| `MetaConnection.MetaConnectionDriver.DrainAvailableFrames` | crates/tinc-runtime/src/meta.rs:554-575 | The loop ends, and has cut and handled every complete frame in order. |
| `MetaConnection.MetaConnectionDriver.NextInputWindow` | crates/tinc-runtime/src/meta.rs:577-614 | How many more bytes are asked for. |
| `MetaConnection.MetaConnectionDriver.ReceiveBytes` | crates/tinc-runtime/src/meta.rs:480-504 | The windowed loop ends and never exceeds the buffer limit it pushes with. |
| `Checksum.ComputeChecksum` | crates/tinc-core/src/route.rs:319-332 | The loop computes the folded complement of the word sum, odd byte in the low position. |
| `Headers.DecrementTtl` | crates/tinc-core/src/route.rs:1424-1471 | The packet changed in place is the one specified, for IPv4, IPv6, behind a VLAN tag, and on every error. |
| `Headers.ScanOptions` | crates/tinc-core/src/route.rs:762-826 | The option loop finds the first well-formed segment size option. |
| `Headers.ClampTcpMss` | crates/tinc-core/src/route.rs:720-826 | The packet changed in place is the one specified, on every path. |
| `Fragment.FragmentIpv4Packet` | crates/tinc-core/src/route.rs:828-906 | The loop builds exactly the specified fragments or the specified error. |
| `Masks.CompareMasked` | crates/tinc-core/src/subnet.rs:476-495 | The byte loop computes the masked comparison. |
| `Masks.MaskBytes` | crates/tinc-core/src/subnet.rs:497-509 | Clears everything behind the prefix in place. |
| `Masks.MaskCheck` | crates/tinc-core/src/subnet.rs:517-530 | True exactly when masking would change nothing. |
| `Lookup.LookupReachable` | crates/tinc-core/src/route.rs:1642-1665 | The loop returns what the specification of the lookup says. |
| `MetaNetwork.MetaNetworkCoordinator.CollectSyncMessages` | crates/tinc-runtime/src/connection.rs:545-591 | One message for each owned subnet and each addressed edge, in table order, with consecutive nonces. |
| `MetaNetwork.MetaNetworkCoordinator.Correct` | crates/tinc-runtime/src/connection.rs:426-528 | The answer to a claim about this node: nothing if it is right, otherwise the truth. |
| `MetaNetwork.MetaNetworkCoordinator.ApplyRelayedMessage` | crates/tinc-runtime/src/connection.rs:393-518 | Rejected, ignored, or applied and perhaps forwarded; applying never fails. |
| `MetaNetwork.MetaNetworkCoordinator.ActivateConnection` | crates/tinc-runtime/src/connection.rs:347-391 | The new peer is told everything, the edge to it is added, and the others are told of it. |
| `MetaNetwork.MetaNetworkCoordinator.HandleConnectionStep` | crates/tinc-runtime/src/connection.rs:306-345 | The events of a step take effect one after the other. |
| `Base64.EncodeTinc` | crates/tinc-core/src/utils.rs:177-208 | The loop computes the encoding. |
| `Base64.DecodeTinc` | crates/tinc-core/src/utils.rs:97-130 | The loop computes the decoding, or fails with it. |
| `Wire.ReadDispatchPrefix` | crates/tinc-core/src/protocol.rs:856-904 | The index loop reads the number the specification says, clamped to 32 bits. |
| `PastRequests.PastRequestCache.MarkSeen` | crates/tinc-core/src/protocol.rs:828-847 | Ages the cache, then answers and remembers. |
| `Cfb.LegacyMetaCipher.ApplyInPlace` | crates/tinc-runtime/src/legacy_meta.rs:1342-1371 | The byte loop over the arrays is the streaming specification. |

## Left out

- Integer width of edge weights and distances: mathematical integers that are not negative; overflow of 32-bit weights and negative weights are not modelled; the measure by which the search ends needs weights that are not negative.
- Wire.PrintingReturns: the parser of ADD_EDGE refuses a negative weight, which the program accepts, because edges here have none.
- Subnets.CompareTransitive: requires that no ownerless subnet shares kind and weight with an owned one, because the order is not transitive then.
- Subnets.SubnetTable.Add: requires the same of the entry that is added, because a list cannot be sorted by an order that is not transitive; Subnets.SubnetTable.AddUnique, which the messages use, requires nothing.
- Replay.CheckRefines: a window of zero bytes (replay protection switched off) and windows of more than 2^29 bytes are outside the statement.
- Routes.SearchIsOptimal: says nothing about graphs with indirect edges, where an indirect route of equal length can replace a direct one; Routes.SearchIsSound covers them.
- Checksum.ComputeChecksum: the 32-bit sum is a natural number here; it cannot overflow for data under 128 kilobytes.
- MetaConnection.MetaConnectionDriver.ReceiveBytes: nothing is said about the state of a connection after an error, because the connection is dropped.
- Framing.SplittingDoesNotMatter: the size of the meta buffer is a parameter, because the file that defines it is not part of this model.
- Sptps.DecodeInOrder: a record sealed under a key is not told from noise when it is decoded without one; the model reports an invalid record type where the program would read a random one.
- Datagrams.RecordsArriveAtMostOnce: nobody but the peer seals records under a key the session listens to, and the peer sends fewer than 2^32 records.
- SptpsLink.DeliveriesSucceed: random generation succeeds.
- KeyLink.RoundsMatch: `restart_initiator`, which drops a pending session after a timeout, is not an action of the run.
- KeyExchange.SptpsKeyExchange.constructor: the packet type, which the program refuses if it is that of a handshake, and the compression level are left out; neither influences the exchange.
- Coordinator.RunKeepsClaims: negotiated weights are not negative, and the mutation a message reports to the caller is not part of the events.
- Coordinator.HandledKeepsClaims: negotiated weights are not negative.
- Upkeep.HandledKeepsUpToDate: negotiated weights are not negative.
- MetaNetwork.MetaNetworkCoordinator.HandleConnectionStep: the same, and so for the activation of a connection, because adding the edge recomputes routes.
- Lookup.DecisionIsSafe: the router mode for IPv4 and IPv6; hub and switch mode, learning of MAC addresses and kernel forwarding are left out.
- Broadcast.BroadcastPacket: packets are names; the device and the transport are parameters that say whether a send succeeds.
- Wire.SubnetReturns: how addresses are written and read is a parameter that must read back what it wrote; the text formats of the standard library are not modelled.
- Node identifiers (a digest of the name), neighbour discovery and the construction of ICMP and ARP replies, priorities, and the choice between sending, fragmenting and replying.
- The loops that reset or filter maps and lists (resetting routes, removing edges of a node, ageing a cache) are comprehensions rather than loops.
- Configuration, devices, sockets, the control socket, logging, the command line, the daemon's timers, and the legacy protocol but for its stream cipher.
- The cryptographic primitives themselves, and what an attacker could do with them.
