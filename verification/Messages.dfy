/** The meta-protocol messages. */
module Messages {
  import opened Basics
  import opened Names
  import opened Topology
  import opened Subnets

  datatype SubnetMessage = SubnetMessage(nonce: nat, owner: Name, subnet: Subnet)
  datatype AddEdgeMessage =
    AddEdgeMessage(nonce: nat, edge: Edge, address: string, port: string, local: Option<Endpoint>)
  datatype DeleteEdgeMessage = DeleteEdgeMessage(nonce: nat, from: Name, to: Name)
  datatype RequestKeyExtension = RequestKeyExtension(request: int, payload: Option<string>)
  datatype AckMessage =
    | Connection(port: string, weight: int, options: nat)
    | Payload(text: string)
    | Control(version: int, pid: int)

  datatype MetaMessage =
    | Id(name: string, protocolMajor: int, protocolMinor: Option<int>)
    | MetaKey(cipher: int, digest: int, macLength: int, compression: int, key: string)
    | Challenge(data: string)
    | ChallengeReply(reply: string)
    | Ack(ack: AckMessage)
    | TerminateRequest
    | Ping
    | Pong
    | AddSubnet(added: SubnetMessage)
    | DeleteSubnet(deleted: SubnetMessage)
    | AddEdge(addedEdge: AddEdgeMessage)
    | DeleteEdge(deletedEdge: DeleteEdgeMessage)
    | KeyChanged(nonce: nat, origin: Name)
    | RequestKey(reqFrom: Name, reqTo: Name, extension: Option<RequestKeyExtension>)
    | AnswerKey(ansFrom: Name, ansTo: Name, ansKey: string, ansCipher: int, ansDigest: int, ansMacLength: nat,
                ansCompression: int, address: Option<Endpoint>)
    | TcpPacket(length: nat)
    | SptpsTcpPacket(sptpsLength: nat)
    | UdpInfo(udpFrom: Name, udpTo: Name, endpoint: Endpoint)
    | MtuInfo(mtuFrom: Name, mtuTo: Name, mtu: nat)
}
