/** SPTPS sessions: the record codecs and the KEX / SIG / ACK handshake, over symbolic cryptography. An ephemeral key is
    named by a number, a shared secret is an unordered pair of them, a signature names its signer and what was signed,
    and a ciphertext is the record together with the key and sequence number that seal it. */
module Sptps {
  import opened Basics
  import opened Replay

  const SPTPS_HANDSHAKE := 128
  const SPTPS_KEX_LEN := 65
  const SIGNATURE_LEN := 64
  const MAX_RECORD := 0xffff

  type SptpsResult<+T> = Result<T, SptpsError>

  datatype Kex = Kex(nonce: nat, publicKey: nat)

  datatype SharedSecret = SharedSecret(low: nat, high: nat)

  datatype KeyMaterial = KeyMaterial(shared: SharedSecret, initiatorNonce: nat, responderNonce: nat,
    sessionLabel: string) {
    /** The incoming and the outgoing key of one role. */
    function KeysForRole(initiator: bool): (Key, Key) {
      if initiator then (Key(this, false), Key(this, true)) else (Key(this, true), Key(this, false))
    }
  }

  /** The first or the second half of the derived material. */
  datatype Key = Key(material: KeyMaterial, second: bool)

  datatype Signature = Signature(signer: nat, initiator: bool, kex0: Kex, kex1: Kex, sessionLabel: string)

  datatype Payload = KexPayload(kex: Kex) | SigPayload(signature: Signature) | Bytes(bytes: seq<byte>) {
    function Length(): nat {
      if KexPayload? then SPTPS_KEX_LEN else if SigPayload? then SIGNATURE_LEN else |bytes|
    }
  }

  /** A record on the wire; `key` is absent when it travels in the clear. */
  datatype Wire = Wire(key: Option<Key>, seqno: u32, recordType: nat, payload: Payload)

  datatype HandshakeState = Kexing | SecondaryKex | Sig | Ack

  datatype SptpsError =
    | InvalidRecordType(recordType: nat)
    | InvalidKexLength(kexLength: nat)
    | InvalidSignatureLength(signatureLength: nat)
    | DuplicateKex
    | SignatureVerificationFailed
    | MissingHandshakeState(what: string)
    | UnexpectedHandshakeRecord(state: HandshakeState, len: nat)
    | RecordTooLarge(actual: nat)
    | InvalidRecordLength
    | UnexpectedSeqno(expected: u32, actualSeqno: u32)
    | ReplayRejected(verdict: Verdict)
    | AuthenticationFailed

  datatype Codec =
    | Datagram(inKey: Option<Key>, outKey: Option<Key>, inReplay: Window, outSeqno: u32)
    | Tcp(inKey: Option<Key>, outKey: Option<Key>, inSeqno: u32, outSeqno: u32)
  {
    predicate Valid() { Datagram? ==> inReplay.Valid() }

    /** The sequence number of the next record in order. */
    function NextIn(): u32 { if Datagram? then inReplay.expectedSeqno else inSeqno }
  }

  function Encode(c: Codec, recordType: nat, payload: Payload): (Codec, SptpsResult<Wire>) {
    if recordType > SPTPS_HANDSHAKE then (c, Err(InvalidRecordType(recordType)))
    else if c.Tcp? && payload.Length() > MAX_RECORD then (c, Err(RecordTooLarge(payload.Length())))
    else (c.(outSeqno := Successor(c.outSeqno)), Ok(Wire(c.outKey, c.outSeqno, recordType, payload)))
  }

  function CheckType(c: Codec, w: Wire): SptpsResult<(nat, Payload)> {
    if w.recordType > SPTPS_HANDSHAKE || (c.inKey.None? && w.recordType != SPTPS_HANDSHAKE)
    then Err(InvalidRecordType(w.recordType)) else Ok((w.recordType, w.payload))
  }

  /** A TCP record says nothing about its number: it opens only under the next number and the current key. */
  function DecodeTcp(c: Codec, w: Wire): (Codec, SptpsResult<(nat, Payload)>)
    requires c.Tcp?
  {
    if c.inKey.Some? != w.key.Some? then (c, Err(InvalidRecordLength))
    else
      var next := c.(inSeqno := Successor(c.inSeqno));
      if c.inKey.Some? && (w.key != c.inKey || w.seqno != c.inSeqno) then (next, Err(AuthenticationFailed))
      else (next, CheckType(c, w))
  }

  /** A datagram carries its number, which the replay window judges once the record has been opened. */
  function DecodeDatagram(c: Codec, w: Wire): (Codec, SptpsResult<(nat, Payload)>)
    requires c.Datagram? && c.Valid()
  {
    if c.inKey.Some? && w.key != c.inKey then (c, Err(AuthenticationFailed))
    else if c.inKey.None? && w.seqno != c.inReplay.expectedSeqno then
      (c, Err(UnexpectedSeqno(c.inReplay.expectedSeqno, w.seqno)))
    else
      var (window, verdict) := Check(c.inReplay, w.seqno, true);
      var next := c.(inReplay := window);
      if verdict != Accepted then (next, Err(ReplayRejected(verdict)))
      else if c.inKey.None? && w.key.Some? then (next, Err(InvalidRecordType(w.recordType)))
      else (next, CheckType(c, w))
  }

  function Decode(c: Codec, w: Wire): (Codec, SptpsResult<(nat, Payload)>)
    requires c.Valid()
  {
    if c.Tcp? then DecodeTcp(c, w) else DecodeDatagram(c, w)
  }

  /** The next record in order, under the current key, always opens. */
  lemma DecodeInOrder(c: Codec, w: Wire)
    requires c.Valid() && w.seqno == c.NextIn() && w.key == c.inKey
    requires w.recordType <= SPTPS_HANDSHAKE && (c.inKey.None? ==> w.recordType == SPTPS_HANDSHAKE)
    ensures var (next, r) := Decode(c, w);
            && r == Ok((w.recordType, w.payload)) && next.Valid() && next.NextIn() == Successor(w.seqno)
            && next.inKey == c.inKey && next.outKey == c.outKey && next.outSeqno == c.outSeqno && next.Tcp? == c.Tcp?
  {
    if c.Datagram? { CheckKeepsSize(c.inReplay, w.seqno); }
  }

  /** A session as a value. */
  datatype Session = Session(initiator: bool, sessionLabel: string, myKey: nat, peerKey: nat, codec: Codec,
    state: HandshakeState, ecdh: Option<nat>, myKex: Option<Kex>, hisKex: Option<Kex>, pending: Option<KeyMaterial>,
                             outbound: seq<Wire>)
  {
    predicate Established() { codec.inKey.Some? && codec.outKey.Some? }
  }

  datatype Event = HandshakeComplete | ApplicationRecord(recordType: nat, payload: Payload)

  /** The application records among the events. */
  function AppRecords(events: seq<Event>): seq<(nat, Payload)> {
    if events == [] then []
    else AppRecords(events[..|events| - 1]) +
         (var e := events[|events| - 1]; if e.ApplicationRecord? then [(e.recordType, e.payload)] else [])
  }

  /** A session after a call, and what the call returned. On an error the session keeps whatever had been changed. */
  datatype Outcome<+T> = Outcome(session: Session, result: SptpsResult<T>)

  function Drained(s: Session): Session { s.(outbound := []) }

  function SharedWith(mine: nat, theirs: nat): SharedSecret {
    if mine <= theirs then SharedSecret(mine, theirs) else SharedSecret(theirs, mine)
  }

  function QueueHandshake(s: Session, payload: Payload): Outcome<()> {
    var (codec, r) := Encode(s.codec, SPTPS_HANDSHAKE, payload);
    if r.Err? then Outcome(s.(codec := codec), Err(r.error))
    else Outcome(s.(codec := codec, outbound := s.outbound + [r.value]), Ok(()))
  }

  /** `kex` is the fresh nonce and ephemeral key drawn for this handshake. */
  function SendKex(s: Session, kex: Kex): Outcome<()> {
    if s.myKex.Some? then Outcome(s, Err(DuplicateKex))
    else QueueHandshake(s.(ecdh := Some(kex.publicKey), myKex := Some(kex)), KexPayload(kex))
  }

  function SendSig(s: Session): Outcome<()> {
    if s.myKex.None? then Outcome(s, Err(MissingHandshakeState("local KEX")))
    else if s.hisKex.None? then Outcome(s, Err(MissingHandshakeState("peer KEX")))
    else QueueHandshake(s, SigPayload(Signature(s.myKey, s.initiator, s.myKex.value, s.hisKex.value, s.sessionLabel)))
  }

  function ReceiveKex(s: Session, data: Payload): Outcome<()> {
    if s.hisKex.Some? then Outcome(s, Err(DuplicateKex))
    else if !data.KexPayload? then Outcome(s, Err(InvalidKexLength(data.Length())))
    else
      var t := s.(hisKex := Some(data.kex));
      if t.initiator then SendSig(t) else Outcome(t, Ok(()))
  }

  /** Whether `data` is the peer's signature over both KEX messages. */
  predicate Verifies(s: Session, data: Payload)
    requires s.hisKex.Some? && s.myKex.Some?
  {
    data == SigPayload(Signature(s.peerKey, !s.initiator, s.hisKex.value, s.myKex.value, s.sessionLabel))
  }

  function MaterialOf(s: Session): KeyMaterial
    requires s.ecdh.Some? && s.myKex.Some? && s.hisKex.Some?
  {
    var shared := SharedWith(s.ecdh.value, s.hisKex.value.publicKey);
    if s.initiator then KeyMaterial(shared, s.myKex.value.nonce, s.hisKex.value.nonce, s.sessionLabel)
    else KeyMaterial(shared, s.hisKex.value.nonce, s.myKex.value.nonce, s.sessionLabel)
  }

  /** True when this was a rekey, so that the peer's ACK is still to come. */
  function ReceiveSig(s: Session, data: Payload): Outcome<bool> {
    if data.Length() != SIGNATURE_LEN then Outcome(s, Err(InvalidSignatureLength(data.Length())))
    else if s.hisKex.None? then Outcome(s, Err(MissingHandshakeState("peer KEX")))
    else if s.myKex.None? then Outcome(s, Err(MissingHandshakeState("local KEX")))
    else if !Verifies(s, data) then Outcome(s, Err(SignatureVerificationFailed))
    else if s.ecdh.None? then Outcome(s, Err(MissingHandshakeState("ephemeral key")))
    else
      var material := MaterialOf(s);
      var secondary := s.codec.outKey.Some?;
      var sent := if s.initiator then Outcome(s, Ok(())) else SendSig(s);
      if sent.result.Err? then Outcome(sent.session, Err(sent.result.error)) else
      var cleared := sent.session.(ecdh := None, myKex := None, hisKex := None);
      var acked := if secondary then QueueHandshake(cleared, Bytes([])) else Outcome(cleared, Ok(()));
      if acked.result.Err? then Outcome(acked.session, Err(acked.result.error)) else
      Outcome(Rekeyed(acked.session, material, secondary), Ok(secondary))
  }

  /** The outgoing key changes at once; on a rekey the incoming key waits for the peer's ACK. */
  function Rekeyed(s: Session, material: KeyMaterial, secondary: bool): Session {
    var (inKey, outKey) := material.KeysForRole(s.initiator);
    if secondary then s.(pending := Some(material), codec := s.codec.(outKey := Some(outKey)))
    else s.(codec := s.codec.(outKey := Some(outKey), inKey := Some(inKey)))
  }

  function ReceiveAck(s: Session, data: Payload): Outcome<()> {
    if data.Length() != 0 then Outcome(s, Err(UnexpectedHandshakeRecord(s.state, data.Length())))
    else if s.pending.None? then Outcome(s, Err(MissingHandshakeState("pending key material")))
    else Outcome(s.(pending := None, codec := s.codec.(inKey := Some(s.pending.value.KeysForRole(s.initiator).0))),
      Ok(()))
  }

  function ReceiveHandshake(s: Session, data: Payload, drawn: Kex): Outcome<seq<Event>> {
    match s.state
    case SecondaryKex =>
      var sent := SendKex(s, drawn);
      if sent.result.Err? then Outcome(sent.session, Err(sent.result.error)) else
      var received := ReceiveKex(sent.session, data);
      if received.result.Err? then Outcome(received.session, Err(received.result.error)) else
      Outcome(received.session.(state := Sig), Ok([]))
    case Kexing =>
      var received := ReceiveKex(s, data);
      if received.result.Err? then Outcome(received.session, Err(received.result.error)) else
      Outcome(received.session.(state := Sig), Ok([]))
    case Sig =>
      var received := ReceiveSig(s, data);
      if received.result.Err? then Outcome(received.session, Err(received.result.error))
      else if received.result.value then Outcome(received.session.(state := Ack), Ok([]))
      else Outcome(received.session.(state := SecondaryKex), Ok([HandshakeComplete]))
    case Ack =>
      var received := ReceiveAck(s, data);
      if received.result.Err? then Outcome(received.session, Err(received.result.error)) else
      Outcome(received.session.(state := SecondaryKex), Ok([HandshakeComplete]))
  }

  function ReceiveDatagram(s: Session, w: Wire, drawn: Kex): Outcome<seq<Event>>
    requires s.codec.Valid()
  {
    var (codec, r) := Decode(s.codec, w);
    var t := s.(codec := codec);
    if r.Err? then Outcome(t, Err(r.error))
    else if r.value.0 == SPTPS_HANDSHAKE then ReceiveHandshake(t, r.value.1, drawn)
    else Outcome(t, Ok([ApplicationRecord(r.value.0, r.value.1)]))
  }

  function ForceKex(s: Session, drawn: Kex): Outcome<()> {
    if !s.Established() || s.state != SecondaryKex then Outcome(s, Err(UnexpectedHandshakeRecord(s.state, 0)))
    else SendKex(s.(state := Kexing), drawn)
  }

  function SendRecord(s: Session, recordType: nat, payload: Payload): Outcome<Wire> {
    if recordType >= SPTPS_HANDSHAKE then Outcome(s, Err(InvalidRecordType(recordType)))
    else
      var (codec, r) := Encode(s.codec, recordType, payload);
      Outcome(s.(codec := codec), r)
  }

  function NewSession(initiator: bool, myKey: nat, peerKey: nat, sessionLabel: string, codec: Codec): Session {
    Session(initiator, sessionLabel, myKey, peerKey, codec, Kexing, None, None, None, None, [])
  }

  /** A new session has already queued its KEX. */
  function StartSession(initiator: bool, myKey: nat, peerKey: nat, sessionLabel: string, codec: Codec,
      drawn: Kex): Session {
    SendKex(NewSession(initiator, myKey, peerKey, sessionLabel, codec), drawn).session
  }

  // What a session holds in each state.

  ghost predicate Coherent(s: Session) {
    && s.codec.Valid() && (s.codec.inKey.Some? <==> s.codec.outKey.Some?) && (s.pending.Some? ==> s.codec.outKey.Some?)
    && (s.myKex.Some? <==> s.ecdh.Some?)
    && match s.state
       case Kexing => s.myKex.Some? && s.hisKex.None?
       case SecondaryKex => s.hisKex.None?
       case Sig => s.myKex.Some? && s.hisKex.Some?
       case Ack => s.hisKex.None? && s.pending.Some?
  }

  datatype Call =
    | ReceiveCall(w: Wire, drawn: Kex)
    | ForceCall(kex: Kex)
    | SendCall(recordType: nat, payload: Payload)
    | DrainCall

  /** A session after a call, and the error if the call failed. */
  function Called(s: Session, call: Call): (Session, seq<SptpsError>)
    requires s.codec.Valid()
  {
    match call
    case ReceiveCall(w, drawn) => Failing(ReceiveDatagram(s, w, drawn))
    case ForceCall(kex) => Failing(ForceKex(s, kex))
    case SendCall(recordType, payload) => Failing(SendRecord(s, recordType, payload))
    case DrainCall => (Drained(s), [])
  }

  function Failing<T>(out: Outcome<T>): (Session, seq<SptpsError>) {
    (out.session, if out.result.Err? then [out.result.error] else [])
  }

  ghost predicate NothingMissing(errors: seq<SptpsError>) {
    forall e :: e in errors ==> !e.MissingHandshakeState?
  }

  lemma DecodeKeepsRest(c: Codec, w: Wire)
    requires c.Valid()
    ensures var (next, r) := Decode(c, w);
            && next.Valid() && next.inKey == c.inKey && next.outKey == c.outKey
            && (r.Err? ==> !r.error.MissingHandshakeState?)
  {
    if c.Datagram? { CheckKeepsSize(c.inReplay, w.seqno); }
  }

  /** A session that is coherent, and an error that does not say that something is missing. */
  ghost predicate Sane<T>(out: Outcome<T>) {
    Coherent(out.session) && (out.result.Err? ==> !out.result.error.MissingHandshakeState?)
  }

  lemma KexIsCoherent(s: Session, data: Payload, drawn: Kex)
    requires Coherent(s) && (s.state.SecondaryKex? || s.state.Kexing?)
    ensures Sane(ReceiveHandshake(s, data, drawn))
  {
    if s.state.SecondaryKex? && s.myKex.None? {
      var sent := SendKex(s, drawn);
      assert sent.result.Ok? && sent.session.state.SecondaryKex? && sent.session.myKex.Some?;
    }
  }

  lemma SigIsCoherent(s: Session, data: Payload, drawn: Kex)
    requires Coherent(s) && (s.state.Sig? || s.state.Ack?)
    ensures Sane(ReceiveHandshake(s, data, drawn))
  {
    if s.state.Sig? { SigHoldsAll(s, data); }
    hide ReceiveSig;
  }

  lemma SigHoldsAll(s: Session, data: Payload)
    requires Coherent(s) && s.state.Sig?
    ensures var out := ReceiveSig(s, data);
            if out.result.Ok? then
              && Coherent(out.session.(state := if out.result.value then Ack else SecondaryKex))
            else out.session == s && !out.result.error.MissingHandshakeState?
  {
    hide Verifies, MaterialOf, Successor;
  }

  lemma HandshakeIsCoherent(s: Session, data: Payload, drawn: Kex)
    requires Coherent(s)
    ensures Sane(ReceiveHandshake(s, data, drawn))
  {
    hide ReceiveHandshake, Sane, Coherent;
    if s.state.SecondaryKex? || s.state.Kexing? {
      KexIsCoherent(s, data, drawn);
    } else {
      SigIsCoherent(s, data, drawn);
    }
  }

  lemma CallIsCoherent(s: Session, call: Call)
    requires Coherent(s)
    ensures Coherent(Called(s, call).0) && NothingMissing(Called(s, call).1)
  {
    if call.ReceiveCall? {
      DecodeKeepsRest(s.codec, call.w);
      var (codec, r) := Decode(s.codec, call.w);
      if r.Ok? { HandshakeIsCoherent(s.(codec := codec), r.value.1, call.drawn); }
      hide Decode, ReceiveHandshake;
    }
  }

  /** A session and everything that has gone wrong after the calls, whatever they bring it. */
  ghost function CalledAll(s: Session, calls: seq<Call>): (r: (Session, seq<SptpsError>))
    requires Coherent(s)
    ensures Coherent(r.0)
    decreases |calls|
  {
    if calls == [] then (s, [])
    else
      var before := CalledAll(s, calls[..|calls| - 1]);
      CallIsCoherent(before.0, calls[|calls| - 1]);
      var (next, errors) := Called(before.0, calls[|calls| - 1]);
      (next, before.1 + errors)
  }

  /** No input, of whatever origin and in whatever order, makes a session miss something its state should hold. */
  lemma {:induction false} NothingIsEverMissing(initiator: bool, myKey: nat, peerKey: nat, sessionLabel: string,
      codec: Codec, drawn: Kex, calls: seq<Call>)
    requires codec.Valid() && codec.inKey.None? && codec.outKey.None?
    ensures Coherent(StartSession(initiator, myKey, peerKey, sessionLabel, codec, drawn))
    ensures NothingMissing(CalledAll(StartSession(initiator, myKey, peerKey, sessionLabel, codec, drawn), calls).1)
    decreases |calls|
  {
    var s := StartSession(initiator, myKey, peerKey, sessionLabel, codec, drawn);
    assert Coherent(s);
    if calls == [] {
    } else {
      var rest := calls[..|calls| - 1];
      NothingIsEverMissing(initiator, myKey, peerKey, sessionLabel, codec, drawn, rest);
      CallIsCoherent(CalledAll(s, rest).0, calls[|calls| - 1]);
    }
    hide Coherent, Called, StartSession;
  }

  class SptpsHandshakeSession {
    const initiator: bool
    const sessionLabel: string
    const myKey: nat
    const peerKey: nat
    var codec: Codec
    var state: HandshakeState
    var ecdh: Option<nat>
    var myKex: Option<Kex>
    var hisKex: Option<Kex>
    var pending: Option<KeyMaterial>
    var outbound: seq<Wire>

    ghost function Snapshot(): Session
      reads this
    {
      Session(initiator, sessionLabel, myKey, peerKey, codec, state, ecdh, myKex, hisKex, pending, outbound)
    }

    constructor (initiator: bool, myKey: nat, peerKey: nat, sessionLabel: string, codec: Codec, drawn: Kex)
      ensures Snapshot() == StartSession(initiator, myKey, peerKey, sessionLabel, codec, drawn)
    {
      this.initiator, this.sessionLabel, this.myKey, this.peerKey, this.codec := initiator, sessionLabel, myKey,
        peerKey, codec;
      state, ecdh, myKex, hisKex, pending, outbound := Kexing, None, None, None, None, [];
      new;
      var _ := SendKexWith(drawn);
    }

    method QueueHandshakeRecord(payload: Payload) returns (r: SptpsResult<()>)
      modifies this
      ensures Outcome(Snapshot(), r) == QueueHandshake(old(Snapshot()), payload)
    {
      var encoded := Encode(codec, SPTPS_HANDSHAKE, payload);
      codec := encoded.0;
      if encoded.1.Err? {
        return Err(encoded.1.error);
      }
      outbound := outbound + [encoded.1.value];
      return Ok(());
    }

    method SendKexWith(kex: Kex) returns (r: SptpsResult<()>)
      modifies this
      ensures Outcome(Snapshot(), r) == SendKex(old(Snapshot()), kex)
    {
      if myKex.Some? {
        return Err(DuplicateKex);
      }
      ecdh := Some(kex.publicKey);
      myKex := Some(kex);
      r := QueueHandshakeRecord(KexPayload(kex));
    }

    method SendSignature() returns (r: SptpsResult<()>)
      modifies this
      ensures Outcome(Snapshot(), r) == SendSig(old(Snapshot()))
    {
      if myKex.None? {
        return Err(MissingHandshakeState("local KEX"));
      }
      if hisKex.None? {
        return Err(MissingHandshakeState("peer KEX"));
      }
      r := QueueHandshakeRecord(SigPayload(Signature(myKey, initiator, myKex.value, hisKex.value, sessionLabel)));
    }

    method AcceptKex(data: Payload) returns (r: SptpsResult<()>)
      modifies this
      ensures Outcome(Snapshot(), r) == ReceiveKex(old(Snapshot()), data)
    {
      if hisKex.Some? {
        return Err(DuplicateKex);
      }
      if !data.KexPayload? {
        return Err(InvalidKexLength(data.Length()));
      }
      hisKex := Some(data.kex);
      r := Ok(());
      if initiator {
        r := SendSignature();
      }
    }

    method AcceptSig(data: Payload) returns (r: SptpsResult<bool>)
      modifies this
      ensures Outcome(Snapshot(), r) == ReceiveSig(old(Snapshot()), data)
    {
      if data.Length() != SIGNATURE_LEN {
        return Err(InvalidSignatureLength(data.Length()));
      }
      if hisKex.None? {
        return Err(MissingHandshakeState("peer KEX"));
      }
      if myKex.None? {
        return Err(MissingHandshakeState("local KEX"));
      }
      if data != SigPayload(Signature(peerKey, !initiator, hisKex.value, myKex.value, sessionLabel)) {
        return Err(SignatureVerificationFailed);
      }
      if ecdh.None? {
        return Err(MissingHandshakeState("ephemeral key"));
      }
      var shared := SharedWith(ecdh.value, hisKex.value.publicKey);
      var initiatorNonce, responderNonce := myKex.value.nonce, hisKex.value.nonce;
      if !initiator {
        initiatorNonce, responderNonce := responderNonce, initiatorNonce;
      }
      var material := KeyMaterial(shared, initiatorNonce, responderNonce, sessionLabel);
      var secondary := codec.outKey.Some?;
      if !initiator {
        var sent := SendSignature();
        if sent.Err? {
          return Err(sent.error);
        }
      }
      ecdh, myKex, hisKex := None, None, None;
      if secondary {
        var queued := QueueHandshakeRecord(Bytes([]));
        if queued.Err? {
          return Err(queued.error);
        }
        pending := Some(material);
      }
      var keys := material.KeysForRole(initiator);
      codec := codec.(outKey := Some(keys.1));
      if !secondary {
        codec := codec.(inKey := Some(keys.0));
      }
      return Ok(secondary);
    }

    method AcceptAck(data: Payload) returns (r: SptpsResult<()>)
      modifies this
      ensures Outcome(Snapshot(), r) == ReceiveAck(old(Snapshot()), data)
    {
      if data.Length() != 0 {
        return Err(UnexpectedHandshakeRecord(state, data.Length()));
      }
      if pending.None? {
        return Err(MissingHandshakeState("pending key material"));
      }
      var material := pending.value;
      pending := None;
      codec := codec.(inKey := Some(material.KeysForRole(initiator).0));
      return Ok(());
    }

    method AcceptHandshake(data: Payload, drawn: Kex) returns (r: SptpsResult<seq<Event>>)
      modifies this
      ensures Outcome(Snapshot(), r) == ReceiveHandshake(old(Snapshot()), data, drawn)
    {
      hide SendKex, ReceiveKex, ReceiveSig, ReceiveAck;
      match state
      case SecondaryKex =>
        var sent := SendKexWith(drawn);
        if sent.Err? {
          return Err(sent.error);
        }
        var received := AcceptKex(data);
        if received.Err? {
          return Err(received.error);
        }
        state := Sig;
        return Ok([]);
      case Kexing =>
        var received := AcceptKex(data);
        if received.Err? {
          return Err(received.error);
        }
        state := Sig;
        return Ok([]);
      case Sig =>
        var received := AcceptSig(data);
        if received.Err? {
          return Err(received.error);
        }
        if received.value {
          state := Ack;
          return Ok([]);
        }
        state := SecondaryKex;
        return Ok([HandshakeComplete]);
      case Ack =>
        var received := AcceptAck(data);
        if received.Err? {
          return Err(received.error);
        }
        state := SecondaryKex;
        return Ok([HandshakeComplete]);
    }

    method Receive(w: Wire, drawn: Kex) returns (r: SptpsResult<seq<Event>>)
      requires codec.Valid()
      modifies this
      ensures Outcome(Snapshot(), r) == ReceiveDatagram(old(Snapshot()), w, drawn)
    {
      hide Decode, ReceiveHandshake;
      var decoded := Decode(codec, w);
      codec := decoded.0;
      if decoded.1.Err? {
        return Err(decoded.1.error);
      }
      if decoded.1.value.0 == SPTPS_HANDSHAKE {
        r := AcceptHandshake(decoded.1.value.1, drawn);
      } else {
        r := Ok([ApplicationRecord(decoded.1.value.0, decoded.1.value.1)]);
      }
    }

    method Force(drawn: Kex) returns (r: SptpsResult<()>)
      modifies this
      ensures Outcome(Snapshot(), r) == ForceKex(old(Snapshot()), drawn)
    {
      if codec.inKey.None? || codec.outKey.None? || state != SecondaryKex {
        return Err(UnexpectedHandshakeRecord(state, 0));
      }
      state := Kexing;
      r := SendKexWith(drawn);
    }

    method Send(recordType: nat, payload: Payload) returns (r: SptpsResult<Wire>)
      modifies this
      ensures Outcome(Snapshot(), r) == SendRecord(old(Snapshot()), recordType, payload)
    {
      if recordType >= SPTPS_HANDSHAKE {
        return Err(InvalidRecordType(recordType));
      }
      var encoded := Encode(codec, recordType, payload);
      codec := encoded.0;
      r := encoded.1;
    }

    method DrainOutbound() returns (records: seq<Wire>)
      modifies this`outbound
      ensures records == old(outbound) && outbound == []
    {
      records, outbound := outbound, [];
    }
  }
}
