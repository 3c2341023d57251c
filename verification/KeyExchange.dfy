/** Key exchange for the data channel: SPTPS handshakes carried in REQ_KEY and ANS_KEY messages, one pending session per
    peer, and the tie-break for two nodes that start at the same time. */
module KeyExchange {
  import opened Basics
  import opened Names
  import opened Replay
  import opened Sptps

  datatype Kind = InitialRequest | HandshakeAnswer | TcpPacket

  /** A key message with its SPTPS payload already decoded. */
  datatype KeyMessage = KeyMessage(kind: Kind, from: Name, dest: Name, data: Wire)

  datatype KeyEvent = Established(peer: Name, session: Session)
    | PeerRecord(sender: Name, recordType: nat, payload: Payload)

  datatype KeyResult = KeyResult(outbound: seq<KeyMessage>, events: seq<KeyEvent>)

  datatype KeyError = UnknownPeerKey(peer: Name) | MissingSession(missing: Name) | WrongDestination(actual: Name)
    | SptpsFailed(error: SptpsError)

  /** The exchange as a value. */
  datatype Exchange = Exchange(myself: Name, privateKey: nat, peerKeys: map<Name, nat>, sessions: map<Name, Session>,
    windowBytes: nat) {
    predicate Valid() { forall p :: p in sessions ==> sessions[p].codec.Valid() }
  }

  /** The exchange after a call, and what the call returned. */
  datatype Reply = Reply(exchange: Exchange, result: Result<KeyResult, KeyError>)

  function UdpLabel(initiator: Name, responder: Name): string {
    "tinc UDP key expansion " + initiator.text + " " + responder.text + "\0"
  }

  function NewCodec(windowBytes: nat): Codec { Datagram(None, None, NewWindow(windowBytes), 0) }

  /** The first record of a request travels as REQ_KEY, everything else as ANS_KEY. */
  function OutboundMessages(myself: Name, peer: Name, records: seq<Wire>, initialRequest: bool): seq<KeyMessage> {
    seq(|records|, i requires 0 <= i < |records| =>
      KeyMessage(if initialRequest && i == 0 then InitialRequest else HandshakeAnswer, myself, peer, records[i]))
  }

  function PeerRecords(peer: Name, events: seq<Event>): seq<KeyEvent> {
    if events == [] then []
    else PeerRecords(peer, events[..|events| - 1]) +
         (var e := events[|events| - 1]; if e.ApplicationRecord? then [PeerRecord(peer, e.recordType, e.payload)]
           else [])
  }

  function StartInitiator(x: Exchange, peer: Name, drawn: Kex): Reply {
    if peer in x.sessions then Reply(x, Ok(KeyResult([], [])))
    else if peer !in x.peerKeys then Reply(x, Err(UnknownPeerKey(peer)))
    else
      var s := StartSession(true, x.privateKey, x.peerKeys[peer], UdpLabel(x.myself, peer), NewCodec(x.windowBytes),
        drawn);
      Reply(x.(sessions := x.sessions[peer := Drained(s)]),
            Ok(KeyResult(OutboundMessages(x.myself, peer, s.outbound, true), [])))
  }

  /** A finished session is handed out and forgotten; any other is kept for the next message. */
  function FinishOrStore(x: Exchange, peer: Name, s: Session, outbound: seq<KeyMessage>, events: seq<Event>): Reply {
    var records := PeerRecords(peer, events);
    if HandshakeComplete in events then Reply(x, Ok(KeyResult(outbound, records + [Established(peer, s)])))
    else Reply(x.(sessions := x.sessions[peer := s]), Ok(KeyResult(outbound, records)))
  }

  /** A peer asks first. If this node has asked too, the lower name stays the initiator: it ignores the request; the
      other one drops its own attempt and answers. */
  function ReceiveInitialRequest(x: Exchange, m: KeyMessage, drawn: Kex): Reply {
    if m.from in x.sessions && x.sessions[m.from].initiator && NameLess(x.myself, m.from)
      then Reply(x, Ok(KeyResult([], [])))
    else if m.from !in x.peerKeys then Reply(x, Err(UnknownPeerKey(m.from)))
    else
      var s := StartSession(false, x.privateKey, x.peerKeys[m.from], UdpLabel(m.from, x.myself),
        NewCodec(x.windowBytes), drawn);
      StartedIsValid(false, x.privateKey, x.peerKeys[m.from], UdpLabel(m.from, x.myself), x.windowBytes, drawn);
      var out := ReceiveDatagram(s, m.data, drawn);
      if out.result.Err? then Reply(x, Err(SptpsFailed(out.result.error))) else
      FinishOrStore(x, m.from, Drained(out.session),
                    OutboundMessages(x.myself, m.from, out.session.outbound, false), out.result.value)
  }

  lemma StartedIsValid(initiator: bool, myKey: nat, peerKey: nat, sessionLabel: string, windowBytes: nat, drawn: Kex)
    ensures StartSession(initiator, myKey, peerKey, sessionLabel, NewCodec(windowBytes), drawn).codec.Valid()
  {
  }

  function ReceiveExistingPayload(x: Exchange, m: KeyMessage, drawn: Kex): Reply
    requires x.Valid()
  {
    if m.from !in x.sessions then Reply(x, Err(MissingSession(m.from)))
    else
      var out := ReceiveDatagram(x.sessions[m.from], m.data, drawn);
      if out.result.Err? then Reply(x.(sessions := x.sessions[m.from := out.session]),
        Err(SptpsFailed(out.result.error))) else
      FinishOrStore(x.(sessions := x.sessions - {m.from}), m.from, Drained(out.session),
                    OutboundMessages(x.myself, m.from, out.session.outbound, false), out.result.value)
  }

  function ReceiveKeyMessage(x: Exchange, m: KeyMessage, drawn: Kex): Reply
    requires x.Valid()
  {
    if m.dest != x.myself then Reply(x, Err(WrongDestination(m.dest)))
    else if m.kind == InitialRequest then ReceiveInitialRequest(x, m, drawn)
    else ReceiveExistingPayload(x, m, drawn)
  }

  class SptpsKeyExchange {
    const myself: Name
    const privateKey: nat
    const windowBytes: nat
    var peerKeys: map<Name, nat>
    var sessions: map<Name, Session>

    ghost function Snapshot(): Exchange
      reads this
    {
      Exchange(myself, privateKey, peerKeys, sessions, windowBytes)
    }

    constructor (name: Name, key: nat, bytes: nat)
      ensures Snapshot() == Exchange(name, key, map[], map[], bytes)
    {
      myself, privateKey, windowBytes, peerKeys, sessions := name, key, bytes, map[], map[];
    }

    method Start(peer: Name, drawn: Kex) returns (r: Result<KeyResult, KeyError>)
      modifies this`sessions
      ensures Reply(Snapshot(), r) == StartInitiator(old(Snapshot()), peer, drawn)
    {
      hide UdpLabel;
      if peer in sessions {
        return Ok(KeyResult([], []));
      }
      if peer !in peerKeys {
        return Err(UnknownPeerKey(peer));
      }
      var session := new SptpsHandshakeSession(true, privateKey, peerKeys[peer], UdpLabel(myself, peer),
        NewCodec(windowBytes), drawn);
      var records := session.DrainOutbound();
      sessions := sessions[peer := Frozen(session)];
      return Ok(KeyResult(OutboundMessages(myself, peer, records, true), []));
    }

    method ReceiveRequest(m: KeyMessage, drawn: Kex) returns (r: Result<KeyResult, KeyError>)
      modifies this`sessions
      ensures Reply(Snapshot(), r) == ReceiveInitialRequest(old(Snapshot()), m, drawn)
    {
      hide UdpLabel, StartSession, ReceiveDatagram, FinishOrStore, NameLess;
      var peer := m.from;
      if peer in sessions && sessions[peer].initiator && NameLess(myself, peer) {
        return Ok(KeyResult([], []));
      }
      if peer !in peerKeys {
        return Err(UnknownPeerKey(peer));
      }
      var session := new SptpsHandshakeSession(false, privateKey, peerKeys[peer], UdpLabel(peer, myself),
        NewCodec(windowBytes), drawn);
      StartedIsValid(false, privateKey, peerKeys[peer], UdpLabel(peer, myself), windowBytes, drawn);
      var received := session.Receive(m.data, drawn);
      if received.Err? {
        return Err(SptpsFailed(received.error));
      }
      var records := session.DrainOutbound();
      r := Finish(peer, Frozen(session), OutboundMessages(myself, peer, records, false), received.value);
    }

    method ReceiveExisting(m: KeyMessage, drawn: Kex) returns (r: Result<KeyResult, KeyError>)
      requires Snapshot().Valid()
      modifies this`sessions
      ensures Reply(Snapshot(), r) == ReceiveExistingPayload(old(Snapshot()), m, drawn)
    {
      hide ReceiveDatagram, FinishOrStore;
      var peer := m.from;
      if peer !in sessions {
        return Err(MissingSession(peer));
      }
      var out := ReceiveDatagram(sessions[peer], m.data, drawn);
      if out.result.Err? {
        sessions := sessions[peer := out.session];
        return Err(SptpsFailed(out.result.error));
      }
      sessions := sessions - {peer};
      r := Finish(peer, Drained(out.session), OutboundMessages(myself, peer, out.session.outbound, false),
        out.result.value);
    }

    method Finish(peer: Name, session: Session, outbound: seq<KeyMessage>, events: seq<Event>)
      returns (r: Result<KeyResult, KeyError>)
      modifies this`sessions
      ensures Reply(Snapshot(), r) == FinishOrStore(old(Snapshot()), peer, session, outbound, events)
    {
      var records, established := [], false;
      for i := 0 to |events|
        invariant records == PeerRecords(peer, events[..i])
        invariant established <==> HandshakeComplete in events[..i]
      {
        assert events[..i + 1] == events[..i] + [events[i]] && events[..i + 1][..i] == events[..i];
        match events[i]
        case HandshakeComplete => established := true;
        case ApplicationRecord(recordType, payload) => records := records + [PeerRecord(peer, recordType, payload)];
      }
      assert events[..|events|] == events;
      if established {
        return Ok(KeyResult(outbound, records + [Established(peer, session)]));
      }
      sessions := sessions[peer := session];
      return Ok(KeyResult(outbound, records));
    }

    method Receive(m: KeyMessage, drawn: Kex) returns (r: Result<KeyResult, KeyError>)
      requires Snapshot().Valid()
      modifies this`sessions
      ensures Reply(Snapshot(), r) == ReceiveKeyMessage(old(Snapshot()), m, drawn)
    {
      hide ReceiveInitialRequest, ReceiveExistingPayload;
      if m.dest != myself {
        return Err(WrongDestination(m.dest));
      }
      if m.kind == InitialRequest {
        r := ReceiveRequest(m, drawn);
      } else {
        r := ReceiveExisting(m, drawn);
      }
    }
  }

  /** The value of a session object. */
  function Frozen(s: SptpsHandshakeSession): Session
    reads s
  {
    Session(s.initiator, s.sessionLabel, s.myKey, s.peerKey, s.codec, s.state, s.ecdh, s.myKex, s.hisKex, s.pending,
      s.outbound)
  }
}
