/** Two SPTPS sessions joined by two FIFO channels, under any interleaving of deliveries, application records and
    rekeying by either side. Every random draw of a side is one entry of a stream fixed in advance. */
module SptpsLink {
  import opened Basics
  import opened Replay
  import opened Sptps

  /** Everything random or secret: the KEX each side will draw for each round, and the identities. */
  datatype Oracle = Oracle(initiatorKex: nat -> Kex, responderKex: nat -> Kex, initiatorKey: nat, responderKey: nat,
                           sessionLabel: string)

  function KexOf(o: Oracle, initiator: bool, round: nat): Kex {
    if initiator then o.initiatorKex(round) else o.responderKex(round)
  }

  function KeyOf(o: Oracle, initiator: bool): nat {
    if initiator then o.initiatorKey else o.responderKey
  }

  /** One side of the link with the records on their way to it, and the application records it has sent and received. */
  datatype End = End(session: Session, draws: nat, inbox: seq<Wire>, sent: seq<(nat, Payload)>,
    got: seq<(nat, Payload)>)

  datatype Link = Link(initiator: End, responder: End, errors: seq<SptpsError>) {
    function Side(i: bool): End { if i then initiator else responder }

    function With(i: bool, mine: End, theirs: End): Link {
      if i then this.(initiator := mine, responder := theirs) else this.(initiator := theirs, responder := mine)
    }
  }

  datatype Action =
    | Deliver(toInitiator: bool)
    | Send(fromInitiator: bool, recordType: nat, payload: Payload)
    | Rekey(byInitiator: bool)

  /** Receiving draws fresh randomness only when it has to answer a KEX out of the blue. */
  predicate Draws(s: Session, w: Wire) {
    s.state == SecondaryKex && w.recordType == SPTPS_HANDSHAKE
  }

  function Fed(e: End, w: seq<Wire>): End { e.(inbox := e.inbox + w) }

  /** A side that has handled the oldest record on its way, what it answers with, and the error if handling failed. */
  datatype Handled = Handled(me: End, outbound: seq<Wire>, failure: Option<SptpsError>)

  function HandleOldest(o: Oracle, i: bool, me: End): Handled
    requires me.inbox != [] && me.session.codec.Valid()
  {
    var w := me.inbox[0];
    var out := ReceiveDatagram(me.session, w, KexOf(o, i, me.draws));
    Handled(
      End(Drained(out.session), if Draws(me.session, w) then me.draws + 1 else me.draws, me.inbox[1..], me.sent,
          if out.result.Ok? then me.got + AppRecords(out.result.value) else me.got),
      out.session.outbound, if out.result.Ok? then None else Some(out.result.error))
  }

  /** One step: deliver the oldest record to a side, send an application record, or force a new key exchange. What the
      session queues goes onto the channel at once. */
  function Step(o: Oracle, l: Link, action: Action): Link
    requires l.initiator.session.codec.Valid() && l.responder.session.codec.Valid()
  {
    match action
    case Deliver(i) =>
      if l.Side(i).inbox == [] then l else
      var h := HandleOldest(o, i, l.Side(i));
      l.With(i, h.me, Fed(l.Side(!i), h.outbound))
       .(errors := if h.failure.Some? then l.errors + [h.failure.value] else l.errors)
    case Send(i, recordType, payload) =>
      var me := l.Side(i);
      var out := SendRecord(me.session, recordType, payload);
      if out.result.Err? then l else
      l.With(i, me.(session := out.session, sent := me.sent + [(recordType, payload)]),
        Fed(l.Side(!i), [out.result.value]))
    case Rekey(i) =>
      var me := l.Side(i);
      var out := ForceKex(me.session, KexOf(o, i, me.draws));
      if out.result.Err? then l.With(i, me.(session := out.session), l.Side(!i)) else
      l.With(i, me.(session := Drained(out.session), draws := me.draws + 1), Fed(l.Side(!i), out.session.outbound))
  }

  /** Both sides started, each with its first KEX on its way. */
  function StartLink(o: Oracle, initiatorCodec: Codec, responderCodec: Codec): Link {
    var a := StartSession(true, o.initiatorKey, o.responderKey, o.sessionLabel, initiatorCodec, o.initiatorKex(0));
    var b := StartSession(false, o.responderKey, o.initiatorKey, o.sessionLabel, responderCodec, o.responderKex(0));
    Link(End(a.(outbound := []), 1, b.outbound, [], []), End(b.(outbound := []), 1, a.outbound, [], []), [])
  }

  // The shape of a run. Each side sends the same sequence of handshake records: KEX, SIG in round 0 and KEX, SIG, ACK
  // in every later round. How far a side has come is given by its round and its phase within it: 0 idle, 1 KEX sent,
  // 2 peer's KEX received, 3 peer's SIG received in a rekey.

  function Round(j: nat): nat { if j < 2 then 0 else (j + 1) / 3 }

  function Position(j: nat): nat { if j < 2 then j else (j + 1) % 3 }

  function RoundMaterial(o: Oracle, round: nat): KeyMaterial {
    var (a, b) := (o.initiatorKex(round), o.responderKex(round));
    KeyMaterial(SharedWith(a.publicKey, b.publicKey), a.nonce, b.nonce, o.sessionLabel)
  }

  /** The payload of the `j`th handshake record a side sends. */
  function Content(o: Oracle, initiator: bool, j: nat): Payload {
    var r := Round(j);
    if Position(j) == 0 then KexPayload(KexOf(o, initiator, r))
    else if Position(j) == 1 then
      SigPayload(Signature(KeyOf(o, initiator), initiator, KexOf(o, initiator, r), KexOf(o, !initiator, r),
        o.sessionLabel))
    else Bytes([])
  }

  /** The key that seals what a side sends after `j` handshake records: the last round it has completed. */
  function EpochKey(o: Oracle, initiator: bool, j: nat): Option<Key> {
    if j < 2 then None else Some(Key(RoundMaterial(o, Round(j) - 1), initiator))
  }

  function Base(round: nat): nat { if round == 0 then 0 else 3 * round - 1 }

  /** Handshake records received so far. */
  function Received(round: nat, phase: nat): nat {
    Base(round) + (if phase <= 1 then 0 else phase - 1)
  }

  /** Handshake records sent so far. The initiator signs as soon as it has the peer's KEX, the responder only in
      reply. */
  function Sent(initiator: bool, round: nat, phase: nat): nat {
    Base(round) + (if phase == 2 && !initiator then 1 else phase)
  }

  lemma Indices(round: nat)
    ensures round > 0 ==> Round(Base(round)) == round && Position(Base(round)) == 0
    ensures round > 0 ==> Round(Base(round) + 1) == round && Position(Base(round) + 1) == 1
    ensures round > 0 ==> Round(Base(round) + 2) == round && Position(Base(round) + 2) == 2
    ensures Base(round + 1) == Base(round) + (if round == 0 then 2 else 3)
    ensures Round(Base(round + 1)) == round + 1
  {
    assert (3 * round - 1 + 1) / 3 == round && (3 * round + 1) / 3 == round && (3 * round + 2) / 3 == round;
  }

  ghost predicate Describes(s: Session, o: Oracle, initiator: bool, round: nat, phase: nat) {
    && s.initiator == initiator && s.sessionLabel == o.sessionLabel
    && s.myKey == KeyOf(o, initiator) && s.peerKey == KeyOf(o, !initiator)
    && phase <= 3 && (round == 0 ==> phase == 1 || phase == 2)
    && s.state == (if phase == 0 then SecondaryKex else if phase == 1 then Kexing else if phase == 2 then Sig else Ack)
    && s.myKex == (if phase == 1 || phase == 2 then Some(KexOf(o, initiator, round)) else None)
    && s.ecdh == (if phase == 1 || phase == 2 then Some(KexOf(o, initiator, round).publicKey) else None)
    && s.hisKex == (if phase == 2 then Some(KexOf(o, !initiator, round)) else None)
    && s.pending == (if phase == 3 then Some(RoundMaterial(o, round)) else None)
    && s.outbound == []
    && s.codec.Valid()
    && s.codec.inKey == EpochKey(o, !initiator, Received(round, phase))
    && s.codec.outKey == (if round == 0 then None else EpochKey(o, initiator, Sent(initiator, round, phase)))
  }

  /** An application record that was sent before its sender had keys: it travels in the clear. */
  predicate Early(w: Wire) { w.key.None? && w.recordType != SPTPS_HANDSHAKE }

  /** The records `w` from the `initiator` side: from handshake record `j` up to `n`, numbered from `seqno` up to `end`,
      each sealed with the key of its epoch, but for early application records. */
  ghost predicate Flow(o: Oracle, initiator: bool, w: seq<Wire>, j: nat, n: nat, seqno: u32, end: u32)
    decreases |w|
  {
    if w == [] then j == n && seqno == end
    else
      && w[0].seqno == seqno
      && if w[0].recordType == SPTPS_HANDSHAKE
         then
           && w[0].key == EpochKey(o, initiator, j) && w[0].payload == Content(o, initiator, j)
           && Flow(o, initiator, w[1..], j + 1, n, Successor(seqno), end)
         else
           && w[0].recordType < SPTPS_HANDSHAKE && (Early(w[0]) || (w[0].key == EpochKey(o, initiator, j) && j >= 2))
           && Flow(o, initiator, w[1..], j, n, Successor(seqno), end)
  }

  lemma {:induction false} FlowJoins(o: Oracle, i: bool, v: seq<Wire>, w: seq<Wire>, j: nat, m: nat, n: nat, p: u32,
      q: u32, r: u32)
    requires Flow(o, i, v, j, m, p, q) && Flow(o, i, w, m, n, q, r)
    ensures Flow(o, i, v + w, j, n, p, r)
    decreases |v|
  {
    hide Content, EpochKey;
    if v == [] {
      assert v + w == w;
    } else {
      assert (v + w)[1..] == v[1..] + w;
      if v[0].recordType == SPTPS_HANDSHAKE {
        FlowJoins(o, i, v[1..], w, j + 1, m, n, Successor(p), q, r);
      } else {
        FlowJoins(o, i, v[1..], w, j, m, n, Successor(p), q, r);
      }
    }
  }

  function AppsOf(w: seq<Wire>): seq<(nat, Payload)> {
    if w == [] then []
    else (if w[0].recordType == SPTPS_HANDSHAKE then [] else [(w[0].recordType, w[0].payload)]) + AppsOf(w[1..])
  }

  lemma {:induction false} AppsJoin(v: seq<Wire>, w: seq<Wire>)
    ensures AppsOf(v + w) == AppsOf(v) + AppsOf(w)
  {
    if v == [] {
      assert v + w == w;
    } else {
      AppsJoin(v[1..], w);
      assert (v + w)[1..] == v[1..] + w;
      var head := if v[0].recordType == SPTPS_HANDSHAKE then [] else [(v[0].recordType, v[0].payload)];
      assert head + (AppsOf(v[1..]) + AppsOf(w)) == head + AppsOf(v[1..]) + AppsOf(w);
    }
  }

  lemma FlowOfOne(o: Oracle, i: bool, w: Wire, j: nat, seqno: u32)
    requires w.seqno == seqno && w.recordType <= SPTPS_HANDSHAKE && (Early(w) || w.key == EpochKey(o, i, j))
    requires if w.recordType == SPTPS_HANDSHAKE then w.payload == Content(o, i, j) else Early(w) || j >= 2
    ensures Flow(o, i, [w], j, if w.recordType == SPTPS_HANDSHAKE then j + 1 else j, seqno, Successor(seqno))
    ensures AppsOf([w]) == if w.recordType == SPTPS_HANDSHAKE then [] else [(w.recordType, w.payload)]
  {
    hide Content, EpochKey;
    assert [w][1..] == [];
  }

  lemma SharingIsSymmetric(a: nat, b: nat)
    ensures SharedWith(a, b) == SharedWith(b, a)
  {
  }

  /** What one handshake record does to a side that is at `round`, `phase`: where it gets to, and what it sends. */
  ghost predicate Advances(o: Oracle, i: bool, before: Session, out: Outcome<seq<Event>>, round: nat, phase: nat,
      round': nat, phase': nat) {
    && out.result.Ok? && AppRecords(out.result.value) == []
    && Describes(Drained(out.session), o, i, round', phase')
    && Flow(o, i, out.session.outbound, Sent(i, round, phase), Sent(i, round', phase'), before.codec.outSeqno,
      out.session.codec.outSeqno)
    && AppsOf(out.session.outbound) == []
    && out.session.codec.NextIn() == before.codec.NextIn()
  }

  /** Answering a KEX out of the blue is sending one's own and then handling the peer's. */
  lemma IdleIsKexSent(o: Oracle, i: bool, s: Session, round: nat) returns (t: Session, w: Wire)
    requires Describes(s, o, i, round, 0)
    ensures w == Wire(s.codec.outKey, s.codec.outSeqno, SPTPS_HANDSHAKE, Content(o, i, Base(round)))
    ensures SendKex(s, KexOf(o, i, round)) == Outcome(t.(outbound := [w], state := SecondaryKex), Ok(()))
    ensures Describes(t, o, i, round, 1)
    ensures t.codec == s.codec.(outSeqno := Successor(s.codec.outSeqno))
  {
    Indices(round);
    var kex := KexOf(o, i, round);
    assert EpochKey(o, i, Base(round) + 1) == EpochKey(o, i, Base(round));
    w := Wire(s.codec.outKey, s.codec.outSeqno, SPTPS_HANDSHAKE, KexPayload(kex));
    t := s.(codec := s.codec.(outSeqno := Successor(s.codec.outSeqno)), ecdh := Some(kex.publicKey), myKex := Some(kex),
            state := Kexing);
    assert [] + [w] == [w];
    hide EpochKey;
  }

  lemma AdvanceFromIdle(o: Oracle, i: bool, s: Session, round: nat)
    requires Describes(s, o, i, round, 0)
    ensures Advances(o, i, s, ReceiveHandshake(s, Content(o, !i, Received(round, 0)), KexOf(o, i, round)), round, 0,
              round, 2)
  {
    hide Flow, EpochKey, Content, Describes, ReceiveKex, SendKex, ReceiveSig, ReceiveAck, AppRecords, KexOf;
    SameWait(round);
    var kex, data := KexOf(o, i, round), Content(o, !i, Received(round, 0));
    var t, w := IdleIsKexSent(o, i, s, round);
    AdvanceFromKex(o, i, t, round, kex);
    var out := ReceiveHandshake(t, data, kex);
    DescribedIsDrained(s, o, i, round, 0);
    KeyBeforeKex(o, i, s, round);
    FlowOfOne(o, i, w, Base(round), s.codec.outSeqno);
    FlowJoins(o, i, [w], out.session.outbound, Base(round), Base(round) + 1, Sent(i, round, 2), s.codec.outSeqno,
              t.codec.outSeqno, out.session.codec.outSeqno);
    AppsJoin([w], out.session.outbound);
    DescribedIsDrained(t, o, i, round, 1);
    QueueLater(t, data, w);
    assert ReceiveHandshake(s, data, kex) == out.(session := out.session.(outbound := [w] + out.session.outbound));
    assert out.session.(outbound := []) == out.session.(outbound := [w] + out.session.outbound).(outbound := []);
  }

  lemma KeyBeforeKex(o: Oracle, i: bool, s: Session, round: nat)
    requires Describes(s, o, i, round, 0)
    ensures s.codec.outKey == EpochKey(o, i, Base(round))
  {
  }

  lemma SameWait(round: nat)
    ensures Received(round, 0) == Received(round, 1) == Base(round)
    ensures forall i: bool :: Sent(i, round, 0) == Base(round) && Sent(i, round, 1) == Base(round) + 1
  {
  }

  /** What is queued already does not influence how a KEX is handled. */
  lemma QueueLater(t: Session, data: Payload, w: Wire)
    requires t.outbound == []
    ensures var plain, queued := ReceiveKex(t, data), ReceiveKex(t.(outbound := [w], state := SecondaryKex), data);
            && queued.result == plain.result
            && queued.session == plain.session.(outbound := [w] + plain.session.outbound, state := SecondaryKex)
  {
    assert [w] + [] == [w];
    assert forall x: Wire :: [w] + ([] + [x]) == [w] + [x];
  }

  lemma AdvanceFromKex(o: Oracle, i: bool, s: Session, round: nat, drawn: Kex)
    requires Describes(s, o, i, round, 1)
    ensures Advances(o, i, s, ReceiveHandshake(s, Content(o, !i, Received(round, 1)), drawn), round, 1, round, 2)
  {
    KexRecords(o, i, round);
    if i {
      InitiatorSigns(o, s, round, drawn);
    } else {
      hide EpochKey, Content;
    }
  }

  /** The records and keys around a KEX. */
  lemma KexRecords(o: Oracle, i: bool, round: nat)
    ensures var j := Base(round);
            && Received(round, 1) == j && Content(o, !i, j) == KexPayload(KexOf(o, !i, round))
            && Content(o, i, j + 1)
                 == SigPayload(Signature(KeyOf(o, i), i, KexOf(o, i, round), KexOf(o, !i, round), o.sessionLabel))
            && EpochKey(o, !i, j + 1) == EpochKey(o, !i, j) && EpochKey(o, i, j + 1) == EpochKey(o, i, j)
            && (round > 0 ==> EpochKey(o, i, j + 2) == EpochKey(o, i, j))
            && (round == 0 ==> EpochKey(o, i, j + 1) == None)
  {
    Indices(round);
  }

  lemma InitiatorSigns(o: Oracle, s: Session, round: nat, drawn: Kex)
    requires Describes(s, o, true, round, 1)
    ensures Advances(o, true, s, ReceiveHandshake(s, Content(o, false, Received(round, 1)), drawn), round, 1, round, 2)
  {
    KexRecords(o, true, round);
    var w := Wire(s.codec.outKey, s.codec.outSeqno, SPTPS_HANDSHAKE, Content(o, true, Base(round) + 1));
    hide EpochKey, Content;
    FlowOfOne(o, true, w, Base(round) + 1, s.codec.outSeqno);
    assert [] + [w] == [w];
    hide Flow;
  }

  /** The peer's SIG completes the first handshake. */
  lemma AdvanceFirstSig(o: Oracle, i: bool, s: Session, drawn: Kex)
    requires Describes(s, o, i, 0, 2)
    ensures Advances(o, i, s, ReceiveHandshake(s, Content(o, !i, Received(0, 2)), drawn), 0, 2, 1, 0)
  {
    Indices(0);
    SharingIsSymmetric(KexOf(o, i, 0).publicKey, KexOf(o, !i, 0).publicKey);
    assert Content(o, !i, 1) == SigPayload(Signature(KeyOf(o, !i), !i, KexOf(o, !i, 0), KexOf(o, i, 0),
      o.sessionLabel));
    assert MaterialOf(s) == RoundMaterial(o, 0);
    if !i {
      var w := Wire(s.codec.outKey, s.codec.outSeqno, SPTPS_HANDSHAKE, Content(o, i, 1));
      FlowOfOne(o, i, w, 1, s.codec.outSeqno);
      assert [] + [w] == [w];
      hide Flow;
    }
    assert AppRecords([HandshakeComplete]) == [] by { assert [HandshakeComplete][..0] == []; }
  }

  /** The records and keys of a rekey from the first SIG to the ACK. */
  lemma RekeyRecords(o: Oracle, i: bool, s: Session, round: nat)
    requires round > 0 && Describes(s, o, i, round, 2)
    ensures var j := Base(round);
            && Received(round, 2) == j + 1
            && Content(o, !i, j + 1) == SigPayload(Signature(KeyOf(o, !i), !i, KexOf(o, !i, round), KexOf(o, i, round),
              o.sessionLabel))
            && Content(o, i, j + 1) == SigPayload(Signature(KeyOf(o, i), i, KexOf(o, i, round), KexOf(o, !i, round),
              o.sessionLabel))
            && Content(o, i, j + 2) == Bytes([])
            && MaterialOf(s) == RoundMaterial(o, round)
            && EpochKey(o, i, j + 1) == EpochKey(o, i, j) && EpochKey(o, i, j + 2) == EpochKey(o, i, j)
            && EpochKey(o, !i, j + 1) == EpochKey(o, !i, j + 2)
            && EpochKey(o, i, j + 3) == Some(Key(RoundMaterial(o, round), i))
  {
    Indices(round);
    SharingIsSymmetric(KexOf(o, i, round).publicKey, KexOf(o, !i, round).publicKey);
  }

  /** In a rekey the peer's SIG is answered with an ACK, the last record under the old key. */
  lemma AdvanceRekeySig(o: Oracle, i: bool, s: Session, round: nat, drawn: Kex)
    requires round > 0 && Describes(s, o, i, round, 2)
    ensures Advances(o, i, s, ReceiveHandshake(s, Content(o, !i, Received(round, 2)), drawn), round, 2, round, 3)
  {
    if i {
      InitiatorAnswersSig(o, s, round, drawn);
    } else {
      ResponderAnswersSig(o, s, round, drawn);
    }
  }

  lemma InitiatorAnswersSig(o: Oracle, s: Session, round: nat, drawn: Kex)
    requires round > 0 && Describes(s, o, true, round, 2)
    ensures Advances(o, true, s, ReceiveHandshake(s, Content(o, false, Received(round, 2)), drawn), round, 2, round, 3)
  {
    Indices(round);
    RekeyRecords(o, true, s, round);
    var ack := Wire(s.codec.outKey, s.codec.outSeqno, SPTPS_HANDSHAKE, Bytes([]));
    hide Content, EpochKey;
    FlowOfOne(o, true, ack, Base(round) + 2, s.codec.outSeqno);
    assert [] + [ack] == [ack];
    hide Flow;
  }

  lemma ResponderAnswersSig(o: Oracle, s: Session, round: nat, drawn: Kex)
    requires round > 0 && Describes(s, o, false, round, 2)
    ensures Advances(o, false, s, ReceiveHandshake(s, Content(o, true, Received(round, 2)), drawn), round, 2, round, 3)
  {
    Indices(round);
    RekeyRecords(o, false, s, round);
    var j, q := Base(round), s.codec.outSeqno;
    var sig, ack := ResponderHandlesSig(o, s, round, drawn);
    hide Content, EpochKey;
    FlowOfOne(o, false, sig, j + 1, q);
    FlowOfOne(o, false, ack, j + 2, Successor(q));
    ResponderSends(o, sig, ack, j, q);
    hide Flow, ReceiveHandshake;
  }

  /** It sends its own SIG first, and both records under the old key. */
  lemma ResponderHandlesSig(o: Oracle, s: Session, round: nat, drawn: Kex) returns (sig: Wire, ack: Wire)
    requires round > 0 && Describes(s, o, false, round, 2)
    ensures sig == Wire(s.codec.outKey, s.codec.outSeqno, SPTPS_HANDSHAKE, Content(o, false, Base(round) + 1))
    ensures ack == Wire(s.codec.outKey, Successor(s.codec.outSeqno), SPTPS_HANDSHAKE, Bytes([]))
    ensures var out := ReceiveHandshake(s, Content(o, true, Base(round) + 1), drawn);
            && out.result == Ok([])
            && out.session == s.(state := Ack, ecdh := None, myKex := None, hisKex := None,
                                 pending := Some(RoundMaterial(o, round)), outbound := [sig, ack],
                                 codec := s.codec.(outKey := Some(Key(RoundMaterial(o, round), false)),
                                                   outSeqno := Successor(Successor(s.codec.outSeqno))))
  {
    RekeyRecords(o, false, s, round);
    hide Content, EpochKey;
    sig := Wire(s.codec.outKey, s.codec.outSeqno, SPTPS_HANDSHAKE, Content(o, false, Base(round) + 1));
    ack := Wire(s.codec.outKey, Successor(s.codec.outSeqno), SPTPS_HANDSHAKE, Bytes([]));
    assert [] + [sig] + [ack] == [sig, ack];
  }

  lemma ResponderSends(o: Oracle, sig: Wire, ack: Wire, j: nat, q: u32)
    requires Flow(o, false, [sig], j + 1, j + 2, q, Successor(q))
    requires Flow(o, false, [ack], j + 2, j + 3, Successor(q), Successor(Successor(q)))
    requires AppsOf([sig]) == AppsOf([ack]) == []
    ensures Flow(o, false, [sig] + [ack], j + 1, j + 3, q, Successor(Successor(q))) && AppsOf([sig] + [ack]) == []
  {
    hide Flow;
    FlowJoins(o, false, [sig], [ack], j + 1, j + 2, j + 3, q, Successor(q), Successor(Successor(q)));
    AppsJoin([sig], [ack]);
  }

  lemma AdvanceFromAck(o: Oracle, i: bool, s: Session, round: nat, drawn: Kex)
    requires round > 0 && Describes(s, o, i, round, 3)
    ensures Advances(o, i, s, ReceiveHandshake(s, Content(o, !i, Received(round, 3)), drawn), round, 3, round + 1, 0)
  {
    Indices(round);
    Indices(round + 1);
    var j := Base(round);
    assert Content(o, !i, j + 2) == Bytes([]);
    assert EpochKey(o, !i, j + 3) == Some(Key(RoundMaterial(o, round), !i));
    assert AppRecords([HandshakeComplete]) == [] by { assert [HandshakeComplete][..0] == []; }
    hide EpochKey, Content;
  }

  // The link as a whole

  datatype Progress = Progress(round: nat, phase: nat)

  /** Where a side gets to by the handshake record it is waiting for. */
  function After(p: Progress): Progress {
    if p.phase <= 1 then Progress(p.round, 2)
    else if p.phase == 2 then (if p.round == 0 then Progress(1, 0) else Progress(p.round, 3))
    else Progress(p.round + 1, 0)
  }

  lemma AnyAdvance(o: Oracle, i: bool, s: Session, p: Progress, drawn: Kex)
    requires Describes(s, o, i, p.round, p.phase)
    requires p.phase == 0 ==> drawn == KexOf(o, i, p.round)
    ensures var q := After(p);
            && Advances(o, i, s, ReceiveHandshake(s, Content(o, !i, Received(p.round, p.phase)), drawn), p.round,
              p.phase, q.round, q.phase)
            && Received(q.round, q.phase) == Received(p.round, p.phase) + 1
  {
    hide Advances, Content;
    Indices(p.round);
    if p.phase == 0 {
      AdvanceFromIdle(o, i, s, p.round);
    } else if p.phase == 1 {
      AdvanceFromKex(o, i, s, p.round, drawn);
    } else if p.phase == 3 {
      AdvanceFromAck(o, i, s, p.round, drawn);
    } else if p.round == 0 {
      AdvanceFirstSig(o, i, s, drawn);
    } else {
      AdvanceRekeySig(o, i, s, p.round, drawn);
    }
  }

  ghost predicate SideInv(o: Oracle, i: bool, e: End, p: Progress) {
    Describes(e.session, o, i, p.round, p.phase) && e.draws == p.round + (if p.phase == 0 then 0 else 1)
  }

  /** The channel out of side `i`: from what the other side still expects up to what this side has sent. */
  ghost predicate ChannelInv(o: Oracle, i: bool, from: End, dest: End, p: Progress, q: Progress) {
    && Flow(o, i, dest.inbox, Received(q.round, q.phase), Sent(i, p.round, p.phase),
            dest.session.codec.NextIn(), from.session.codec.outSeqno)
    && dest.got + AppsOf(dest.inbox) == from.sent
  }

  ghost predicate PairInv(o: Oracle, i: bool, me: End, peer: End, mine: Progress, theirs: Progress) {
    && SideInv(o, i, me, mine) && SideInv(o, !i, peer, theirs)
    && ChannelInv(o, i, me, peer, mine, theirs) && ChannelInv(o, !i, peer, me, theirs, mine)
  }

  ghost predicate Inv(o: Oracle, l: Link, a: Progress, b: Progress) {
    PairInv(o, true, l.initiator, l.responder, a, b) && l.errors == []
  }

  /** Appending to a channel what its sender has just produced. */
  lemma PushKeepsChannel(o: Oracle, i: bool, from: End, from': End, dest: End, w: seq<Wire>, p: Progress, p': Progress,
      q: Progress)
    requires ChannelInv(o, i, from, dest, p, q)
    requires Flow(o, i, w, Sent(i, p.round, p.phase), Sent(i, p'.round, p'.phase), from.session.codec.outSeqno,
               from'.session.codec.outSeqno)
    requires from'.sent == from.sent + AppsOf(w)
    ensures ChannelInv(o, i, from', Fed(dest, w), p', q)
  {
    hide Flow, Sent, Received;
    FlowJoins(o, i, dest.inbox, w, Received(q.round, q.phase), Sent(i, p.round, p.phase), Sent(i, p'.round, p'.phase),
              dest.session.codec.NextIn(), from.session.codec.outSeqno, from'.session.codec.outSeqno);
    AppsJoin(dest.inbox, w);
  }

  lemma SideMeans(o: Oracle, i: bool, e: End, p: Progress)
    requires SideInv(o, i, e, p)
    ensures e.session.codec.Valid() && e.session.outbound == []
    ensures e.session.codec.inKey == EpochKey(o, !i, Received(p.round, p.phase))
    ensures if e.session.Established() then e.session.codec.outKey == EpochKey(o, i, Sent(i, p.round, p.phase))
            else e.session.codec.outKey.None?
  {
  }

  /** The oldest record on a channel opens, and it is an application record or the handshake record its receiver
      expects. */
  lemma OldestOpens(o: Oracle, i: bool, me: End, peer: End, mine: Progress, theirs: Progress)
    requires SideInv(o, i, me, mine) && ChannelInv(o, !i, peer, me, theirs, mine) && me.inbox != []
             && !Early(me.inbox[0])
    ensures me.session.codec.Valid()
    ensures var w := me.inbox[0];
            var (codec, r) := Decode(me.session.codec, w);
            && r == Ok((w.recordType, w.payload))
            && Describes(me.session.(codec := codec), o, i, mine.round, mine.phase)
            && codec.outSeqno == me.session.codec.outSeqno
            && w.recordType <= SPTPS_HANDSHAKE
            && (w.recordType == SPTPS_HANDSHAKE ==> w.payload == Content(o, !i, Received(mine.round, mine.phase)))
            && Flow(o, !i, me.inbox[1..],
              Received(mine.round, mine.phase) + (if w.recordType == SPTPS_HANDSHAKE then 1 else 0),
                    Sent(!i, theirs.round, theirs.phase), codec.NextIn(), peer.session.codec.outSeqno)
  {
    hide Content, EpochKey, Decode, Sent;
    SideMeans(o, i, me, mine);
    var w := me.inbox[0];
    if w.recordType < SPTPS_HANDSHAKE { LaterEpochsHaveKeys(o, !i, Received(mine.round, mine.phase)); }
    DecodeInOrder(me.session.codec, w);
  }

  lemma LaterEpochsHaveKeys(o: Oracle, i: bool, j: nat)
    requires j >= 2
    ensures EpochKey(o, i, j).Some?
  {
  }

  lemma OneAppRecord(recordType: nat, payload: Payload)
    ensures AppRecords([ApplicationRecord(recordType, payload)]) == [(recordType, payload)]
  {
    assert [ApplicationRecord(recordType, payload)][..0] == [];
  }

  lemma SplitApps(w: seq<Wire>)
    requires w != []
    ensures AppsOf(w) == (if w[0].recordType == SPTPS_HANDSHAKE then [] else [(w[0].recordType, w[0].payload)])
              + AppsOf(w[1..])
  {
  }

  /** Handing a side the oldest record on its way: never an error, and both channels stay in step. */
  lemma DeliveryKeepsStep(o: Oracle, i: bool, me: End, peer: End, mine: Progress, theirs: Progress)
    returns (next: Progress)
    requires PairInv(o, i, me, peer, mine, theirs) && me.inbox != [] && !Early(me.inbox[0])
    ensures me.session.codec.Valid()
    ensures var h := HandleOldest(o, i, me);
            h.failure == None && PairInv(o, i, h.me, Fed(peer, h.outbound), next, theirs)
  {
    SideMeans(o, i, me, mine);
    OldestOpens(o, i, me, peer, mine, theirs);
    var w := me.inbox[0];
    if w.recordType == SPTPS_HANDSHAKE {
      next := After(mine);
      HandshakeKeepsStep(o, i, me, peer, mine, theirs);
    } else {
      next := mine;
      AppKeepsStep(o, i, me, peer, mine, theirs);
    }
  }

  lemma AppIsDelivered(o: Oracle, i: bool, me: End, peer: End, mine: Progress, theirs: Progress)
    requires SideInv(o, i, me, mine) && ChannelInv(o, !i, peer, me, theirs, mine)
    requires me.inbox != [] && me.inbox[0].recordType != SPTPS_HANDSHAKE && !Early(me.inbox[0])
             && me.session.codec.Valid()
    ensures var (h, w) := (HandleOldest(o, i, me), me.inbox[0]);
            && h.failure == None && h.outbound == [] && h.me.draws == me.draws && h.me.sent == me.sent
            && h.me.inbox == me.inbox[1..] && h.me.got == me.got + [(w.recordType, w.payload)]
            && SideInv(o, i, h.me, mine) && h.me.session.codec.outSeqno == me.session.codec.outSeqno
            && Flow(o, !i, h.me.inbox, Received(mine.round, mine.phase), Sent(!i, theirs.round, theirs.phase),
                    h.me.session.codec.NextIn(), peer.session.codec.outSeqno)
  {
    hide Decode, Content, EpochKey, Sent, Received, Flow, AppsOf, AppRecords, Describes;
    OldestOpens(o, i, me, peer, mine, theirs);
    DescribedIsDrained(me.session, o, i, mine.round, mine.phase);
    OneAppRecord(me.inbox[0].recordType, me.inbox[0].payload);
  }

  lemma DescribedIsDrained(s: Session, o: Oracle, i: bool, round: nat, phase: nat)
    requires Describes(s, o, i, round, phase)
    ensures s.outbound == [] && s.state == (if phase == 0 then SecondaryKex else if phase == 1 then Kexing
              else if phase == 2 then Sig else Ack)
  {
  }

  lemma AppKeepsStep(o: Oracle, i: bool, me: End, peer: End, mine: Progress, theirs: Progress)
    requires PairInv(o, i, me, peer, mine, theirs) && me.inbox != [] && me.inbox[0].recordType != SPTPS_HANDSHAKE
    requires !Early(me.inbox[0]) && me.session.codec.Valid()
    ensures var h := HandleOldest(o, i, me);
            h.failure == None && PairInv(o, i, h.me, Fed(peer, h.outbound), mine, theirs)
  {
    hide HandleOldest, SideInv, Sent, Received, Flow, AppsOf;
    AppIsDelivered(o, i, me, peer, mine, theirs);
    SplitApps(me.inbox);
    var h, w := HandleOldest(o, i, me), me.inbox[0];
    assert Fed(peer, []) == peer by { assert peer.inbox + [] == peer.inbox; }
    assert me.got + [(w.recordType, w.payload)] + AppsOf(h.me.inbox)
      == me.got + ([(w.recordType, w.payload)] + AppsOf(h.me.inbox));
  }

  /** The answer to the expected handshake record, and where it takes the side that gives it. */
  lemma HandshakeIsAnswered(o: Oracle, i: bool, me: End, peer: End, mine: Progress, theirs: Progress)
    requires SideInv(o, i, me, mine) && ChannelInv(o, !i, peer, me, theirs, mine)
    requires me.inbox != [] && me.inbox[0].recordType == SPTPS_HANDSHAKE && me.session.codec.Valid()
    ensures var (h, next) := (HandleOldest(o, i, me), After(mine));
            && h.failure == None && SideInv(o, i, h.me, next) && h.me.sent == me.sent && h.me.got == me.got
            && h.me.inbox == me.inbox[1..]
            && Flow(o, i, h.outbound, Sent(i, mine.round, mine.phase), Sent(i, next.round, next.phase),
                    me.session.codec.outSeqno, h.me.session.codec.outSeqno)
            && AppsOf(h.outbound) == []
            && Flow(o, !i, h.me.inbox, Received(next.round, next.phase), Sent(!i, theirs.round, theirs.phase),
                    h.me.session.codec.NextIn(), peer.session.codec.outSeqno)
  {
    hide Decode, Content, EpochKey, Sent, Received, Flow, AppsOf, AppRecords, Describes, ReceiveHandshake, KexOf;
    OldestOpens(o, i, me, peer, mine, theirs);
    PhaseOfState(o, i, me, mine);
    var (codec, _) := Decode(me.session.codec, me.inbox[0]);
    AnyAdvance(o, i, me.session.(codec := codec), mine, KexOf(o, i, me.draws));
  }

  lemma HandshakeKeepsStep(o: Oracle, i: bool, me: End, peer: End, mine: Progress, theirs: Progress)
    requires PairInv(o, i, me, peer, mine, theirs) && me.inbox != [] && me.inbox[0].recordType == SPTPS_HANDSHAKE
    requires me.session.codec.Valid()
    ensures var h := HandleOldest(o, i, me);
            h.failure == None && PairInv(o, i, h.me, Fed(peer, h.outbound), After(mine), theirs)
  {
    hide HandleOldest, SideInv, Sent, Received, Flow, AppsOf;
    HandshakeIsAnswered(o, i, me, peer, mine, theirs);
    SplitApps(me.inbox);
    var h := HandleOldest(o, i, me);
    PushKeepsChannel(o, i, me, h.me, peer, h.outbound, mine, After(mine), theirs);
    FedIsSame(o, !i, peer, h.outbound, theirs);
    assert me.sent + [] == me.sent && [] + AppsOf(h.me.inbox) == AppsOf(h.me.inbox);
  }

  /** What is on the way to a side is no part of its own state. */
  lemma FedIsSame(o: Oracle, i: bool, e: End, w: seq<Wire>, p: Progress)
    requires SideInv(o, i, e, p)
    ensures SideInv(o, i, Fed(e, w), p) && Fed(e, w).session == e.session && Fed(e, w).sent == e.sent
            && Fed(e, w).got == e.got
  {
  }

  lemma PhaseOfState(o: Oracle, i: bool, e: End, p: Progress)
    requires SideInv(o, i, e, p)
    ensures (e.session.state == SecondaryKex <==> p.phase == 0) && p.phase <= 3
    ensures p.phase == 0 ==> e.draws == p.round
    ensures e.draws == (if p.phase == 0 then p.round else p.round + 1)
    ensures After(p).phase != 0 ==> After(p).round == p.round
    ensures After(p).phase == 0 ==> p.phase != 0 && After(p).round == p.round + 1
  {
  }

  /** An application record is sealed with the key of the last round its sender has completed, if there is one. */
  lemma SendKeepsStep(o: Oracle, i: bool, me: End, peer: End, mine: Progress, theirs: Progress, recordType: nat,
      payload: Payload)
    requires PairInv(o, i, me, peer, mine, theirs)
    requires SendRecord(me.session, recordType, payload).result.Ok?
    ensures Early(SendRecord(me.session, recordType, payload).result.value) <==> !me.session.Established()
    ensures var out := SendRecord(me.session, recordType, payload);
            PairInv(o, i, me.(session := out.session, sent := me.sent + [(recordType, payload)]),
                    Fed(peer, [out.result.value]), mine, theirs)
  {
    var out := SendRecord(me.session, recordType, payload);
    var w, n := out.result.value, Sent(i, mine.round, mine.phase);
    SideMeans(o, i, me, mine);
    if me.session.Established() { EpochWithKey(o, i, n); }
    hide Content, EpochKey, Received, Sent;
    FlowOfOne(o, i, w, n, me.session.codec.outSeqno);
    hide Flow, AppsOf;
    PushKeepsChannel(o, i, me, me.(session := out.session, sent := me.sent + [(recordType, payload)]), peer, [w], mine,
      mine, theirs);
  }

  lemma EpochWithKey(o: Oracle, i: bool, j: nat)
    requires EpochKey(o, i, j).Some?
    ensures j >= 2
  {
  }

  lemma RekeyIsAnnounced(o: Oracle, i: bool, me: End, mine: Progress)
    requires SideInv(o, i, me, mine) && ForceKex(me.session, KexOf(o, i, me.draws)).result.Ok?
    ensures var (out, next) := (ForceKex(me.session, KexOf(o, i, me.draws)), Progress(mine.round, 1));
            && SideInv(o, i, me.(session := Drained(out.session), draws := me.draws + 1), next)
            && Flow(o, i, out.session.outbound, Sent(i, mine.round, mine.phase), Sent(i, next.round, 1),
                    me.session.codec.outSeqno, out.session.codec.outSeqno)
            && AppsOf(out.session.outbound) == []
            && out.session.codec.NextIn() == me.session.codec.NextIn()
  {
    PhaseOfState(o, i, me, mine);
    Indices(mine.round);
    var t, w := IdleIsKexSent(o, i, me.session, mine.round);
    ForcedIsKexSent(o, i, me.session, KexOf(o, i, me.draws), t, w);
    FlowOfOne(o, i, w, Base(mine.round), me.session.codec.outSeqno);
    hide Content, EpochKey, Flow, AppsOf, ForceKex, KexOf, SendKex, Describes;
  }

  lemma RekeyKeepsStep(o: Oracle, i: bool, me: End, peer: End, mine: Progress, theirs: Progress)
    requires PairInv(o, i, me, peer, mine, theirs)
    requires ForceKex(me.session, KexOf(o, i, me.draws)).result.Ok?
    ensures var out := ForceKex(me.session, KexOf(o, i, me.draws));
            PairInv(o, i, me.(session := Drained(out.session), draws := me.draws + 1), Fed(peer, out.session.outbound),
                    Progress(mine.round, 1), theirs)
  {
    hide SideInv, Sent, Flow, AppsOf, ForceKex, KexOf;
    RekeyIsAnnounced(o, i, me, mine);
    var out := ForceKex(me.session, KexOf(o, i, me.draws));
    var me' := me.(session := Drained(out.session), draws := me.draws + 1);
    PushKeepsChannel(o, i, me, me', peer, out.session.outbound, mine, Progress(mine.round, 1), theirs);
    FedIsSame(o, !i, peer, out.session.outbound, theirs);
    assert me.sent + [] == me.sent;
    assert Received(mine.round, 1) == Received(mine.round, mine.phase) by { PhaseWhenForced(o, i, me, mine); }
  }

  /** A session that is idle and established can always start a new exchange, so a refusal changes nothing. */
  lemma RefusedForceIsNothing(o: Oracle, i: bool, me: End, mine: Progress)
    requires SideInv(o, i, me, mine) && ForceKex(me.session, KexOf(o, i, me.draws)).result.Err?
    ensures ForceKex(me.session, KexOf(o, i, me.draws)).session == me.session
  {
  }

  lemma PhaseWhenForced(o: Oracle, i: bool, me: End, mine: Progress)
    requires SideInv(o, i, me, mine) && ForceKex(me.session, KexOf(o, i, me.draws)).result.Ok?
    ensures mine.phase == 0
  {
    PhaseOfState(o, i, me, mine);
  }

  /** Forcing a key exchange only changes the order in which state and KEX are written. */
  lemma ForcedIsKexSent(o: Oracle, i: bool, s: Session, kex: Kex, t: Session, w: Wire)
    requires ForceKex(s, kex).result.Ok? && s.outbound == [] && t.outbound == [] && t.state == Kexing
    requires SendKex(s, kex) == Outcome(t.(outbound := [w], state := SecondaryKex), Ok(()))
    ensures ForceKex(s, kex).session == t.(outbound := [w]) && Drained(ForceKex(s, kex).session) == t
  {
  }

  lemma PairIsSymmetric(o: Oracle, i: bool, me: End, peer: End, mine: Progress, theirs: Progress)
    requires PairInv(o, i, me, peer, mine, theirs)
    ensures PairInv(o, !i, peer, me, theirs, mine)
  {
  }

  /** Whether the step hands a side an application record that was sent before there were keys. */
  ghost predicate BringsEarly(l: Link, action: Action) {
    action.Deliver? && l.Side(action.toInitiator).inbox != [] && Early(l.Side(action.toInitiator).inbox[0])
  }

  /** Whether the step sends an application record from a session that is not established. */
  ghost predicate SendsEarly(l: Link, action: Action) {
    && action.Send? && !l.Side(action.fromInitiator).session.Established()
    && SendRecord(l.Side(action.fromInitiator).session, action.recordType, action.payload).result.Ok?
  }

  lemma StepKeepsInv(o: Oracle, l: Link, action: Action, a: Progress, b: Progress) returns (a': Progress, b': Progress)
    requires Inv(o, l, a, b) && !BringsEarly(l, action)
    requires l.initiator.session.codec.Valid() && l.responder.session.codec.Valid()
    ensures Inv(o, Step(o, l, action), a', b')
  {
    hide PairInv, HandleOldest, SendRecord, ForceKex, Fed, Drained;
    PairIsSymmetric(o, true, l.initiator, l.responder, a, b);
    var i := if action.Deliver? then action.toInitiator else if action.Send? then action.fromInitiator
      else action.byInitiator;
    var mine, theirs := if i then a else b, if i then b else a;
    var me, peer := l.Side(i), l.Side(!i);
    var next := mine;
    if action.Deliver? {
      if me.inbox != [] { next := DeliveryKeepsStep(o, i, me, peer, mine, theirs); }
    } else if action.Send? {
      if SendRecord(me.session, action.recordType, action.payload).result.Ok? {
        SendKeepsStep(o, i, me, peer, mine, theirs, action.recordType, action.payload);
      }
    } else {
      if ForceKex(me.session, KexOf(o, i, me.draws)).result.Ok? {
        RekeyKeepsStep(o, i, me, peer, mine, theirs);
        next := Progress(mine.round, 1);
      } else {
        RefusedForceIsNothing(o, i, me, mine);
      }
    }
    a', b' := if i then next else a, if i then b else next;
    var m := Step(o, l, action);
    assert PairInv(o, i, m.Side(i), m.Side(!i), next, theirs);
    PairIsSymmetric(o, i, m.Side(i), m.Side(!i), next, theirs);
  }

  // Application records sent too early, and what becomes of them.

  function EarlyIn(w: seq<Wire>): nat {
    if w == [] then 0 else (if Early(w[0]) then 1 else 0) + EarlyIn(w[1..])
  }

  function EarlyOnTheWay(l: Link): nat { EarlyIn(l.initiator.inbox) + EarlyIn(l.responder.inbox) }

  lemma {:induction false} EarlyJoins(v: seq<Wire>, w: seq<Wire>)
    ensures EarlyIn(v + w) == EarlyIn(v) + EarlyIn(w)
  {
    if v == [] {
      assert v + w == w;
    } else {
      EarlyJoins(v[1..], w);
      assert (v + w)[1..] == v[1..] + w;
    }
  }

  /** No early record opens, whoever receives it. */
  lemma EarlyRecordIsRefused(peer: Session, w: Wire, drawn: Kex)
    requires peer.codec.Valid() && Early(w)
    ensures ReceiveDatagram(peer, w, drawn).result.Err?
  {
  }

  ghost predicate HandshakeOnly(w: seq<Wire>) {
    forall i :: 0 <= i < |w| ==> w[i].recordType == SPTPS_HANDSHAKE
  }

  lemma {:induction false} HandshakeIsNotEarly(w: seq<Wire>)
    requires HandshakeOnly(w)
    ensures EarlyIn(w) == 0
  {
    if w == [] {
    } else {
      HandshakeIsNotEarly(w[1..]);
    }
  }

  lemma QueuedAreHandshake(s: Session, payload: Payload)
    requires HandshakeOnly(s.outbound)
    ensures HandshakeOnly(QueueHandshake(s, payload).session.outbound)
  {
  }

  lemma KexAnswersAreHandshake(s: Session, data: Payload)
    requires HandshakeOnly(s.outbound)
    ensures HandshakeOnly(ReceiveKex(s, data).session.outbound)
  {
    hide QueueHandshake, HandshakeOnly;
    forall t: Session, payload | t.outbound == s.outbound
      ensures HandshakeOnly(QueueHandshake(t, payload).session.outbound)
    {
      QueuedAreHandshake(t, payload);
    }
  }

  lemma SigAnswersAreHandshake(s: Session, data: Payload)
    requires HandshakeOnly(s.outbound)
    ensures HandshakeOnly(ReceiveSig(s, data).session.outbound)
  {
    hide QueueHandshake, HandshakeOnly, MaterialOf, Verifies;
    forall t: Session, payload | HandshakeOnly(t.outbound)
      ensures HandshakeOnly(QueueHandshake(t, payload).session.outbound)
    {
      QueuedAreHandshake(t, payload);
    }
  }

  lemma HandshakeAnswersAreHandshake(s: Session, data: Payload, drawn: Kex)
    requires HandshakeOnly(s.outbound)
    ensures HandshakeOnly(ReceiveHandshake(s, data, drawn).session.outbound)
  {
    hide ReceiveKex, ReceiveSig, QueueHandshake, HandshakeOnly;
    if s.state.SecondaryKex? {
      QueuedAreHandshake(s.(ecdh := Some(drawn.publicKey), myKex := Some(drawn)), KexPayload(drawn));
      KexAnswersAreHandshake(SendKex(s, drawn).session, data);
    } else if s.state.Kexing? {
      KexAnswersAreHandshake(s, data);
    } else if s.state.Sig? {
      SigAnswersAreHandshake(s, data);
    }
  }

  /** A session queues handshake records only. */
  lemma AnswersAreHandshake(s: Session, w: Wire, drawn: Kex)
    requires s.codec.Valid() && HandshakeOnly(s.outbound)
    ensures HandshakeOnly(ReceiveDatagram(s, w, drawn).session.outbound)
  {
    hide Decode, ReceiveHandshake, HandshakeOnly;
    var (codec, r) := Decode(s.codec, w);
    if r.Ok? {
      HandshakeAnswersAreHandshake(s.(codec := codec), r.value.1, drawn);
    }
  }

  ghost predicate Ready(l: Link) {
    && Coherent(l.initiator.session) && l.initiator.session.outbound == []
    && Coherent(l.responder.session) && l.responder.session.outbound == []
  }

  /** What any step does to the early records on their way, in whatever state the link is. */
  ghost predicate Balanced(l: Link, action: Action, m: Link) {
    && Ready(m) && l.errors <= m.errors && (NothingMissing(l.errors) ==> NothingMissing(m.errors))
    && (BringsEarly(l, action) ==> m.errors != [])
    && EarlyOnTheWay(m) == EarlyOnTheWay(l) + (if SendsEarly(l, action) then 1 else 0) - (if BringsEarly(l, action)
      then 1 else 0)
  }

  /** Handling the oldest record leaves a coherent session, queues nothing early, and fails on an early record. */
  lemma HandlingBalances(o: Oracle, i: bool, me: End)
    requires Coherent(me.session) && me.session.outbound == [] && me.inbox != []
    ensures me.session.codec.Valid()
    ensures var h := HandleOldest(o, i, me);
            && Coherent(h.me.session) && h.me.session.outbound == [] && h.me.inbox == me.inbox[1..]
            && EarlyIn(h.outbound) == 0 && (Early(me.inbox[0]) ==> h.failure.Some?)
            && (h.failure.Some? ==> !h.failure.value.MissingHandshakeState?)
  {
    var w, drawn := me.inbox[0], KexOf(o, i, me.draws);
    CallIsCoherent(me.session, ReceiveCall(w, drawn));
    AnswersAreHandshake(me.session, w, drawn);
    HandshakeIsNotEarly(ReceiveDatagram(me.session, w, drawn).session.outbound);
    if Early(w) { EarlyRecordIsRefused(me.session, w, drawn); }
    DrainedIsCoherent(ReceiveDatagram(me.session, w, drawn).session);
    hide ReceiveDatagram, Coherent, KexOf, EarlyIn;
  }

  lemma DrainedIsCoherent(s: Session)
    requires Coherent(s)
    ensures Coherent(Drained(s)) && s.codec.Valid()
  {
  }

  lemma DeliveryBalances(o: Oracle, l: Link, i: bool)
    requires Ready(l)
    ensures Balanced(l, Deliver(i), Step(o, l, Deliver(i)))
    ensures l.Side(i).inbox != [] ==>
              var m := Step(o, l, Deliver(i));
              m.Side(i).inbox == l.Side(i).inbox[1..] && EarlyIn(m.Side(!i).inbox) == EarlyIn(l.Side(!i).inbox)
  {
    var me := l.Side(i);
    CodecsAreValid(l);
    if me.inbox != [] {
      HandlingBalances(o, i, me);
      EarlyJoins(l.Side(!i).inbox, HandleOldest(o, i, me).outbound);
      EarlySplits(me.inbox);
    }
    hide HandleOldest, Coherent, EarlyIn;
  }

  lemma EarlySplits(w: seq<Wire>)
    requires w != []
    ensures EarlyIn(w) == (if Early(w[0]) then 1 else 0) + EarlyIn(w[1..])
  {
  }

  lemma SendBalances(o: Oracle, l: Link, i: bool, recordType: nat, payload: Payload)
    requires Ready(l)
    ensures Balanced(l, Send(i, recordType, payload), Step(o, l, Send(i, recordType, payload)))
  {
    var me := l.Side(i);
    var out := SendRecord(me.session, recordType, payload);
    if out.result.Ok? {
      EarlyJoins(l.Side(!i).inbox, [out.result.value]);
      assert [out.result.value][1..] == [];
      assert Early(out.result.value) <==> !me.session.Established();
    }
  }

  lemma RekeyBalances(o: Oracle, l: Link, i: bool)
    requires Ready(l)
    ensures Balanced(l, Rekey(i), Step(o, l, Rekey(i)))
  {
    var me := l.Side(i);
    var kex := KexOf(o, i, me.draws);
    var out := ForceKex(me.session, kex);
    CallIsCoherent(me.session, ForceCall(kex));
    assert HandshakeOnly(out.session.outbound);
    HandshakeIsNotEarly(out.session.outbound);
    EarlyJoins(l.Side(!i).inbox, out.session.outbound);
    assert Coherent(Drained(out.session));
    hide ForceKex, Coherent, KexOf;
  }

  lemma StepBalances(o: Oracle, l: Link, action: Action)
    requires Ready(l)
    ensures Balanced(l, action, Step(o, l, action))
  {
    hide Step, Balanced;
    match action
    case Deliver(i) => DeliveryBalances(o, l, i);
    case Send(i, recordType, payload) => SendBalances(o, l, i, recordType, payload);
    case Rekey(i) => RekeyBalances(o, l, i);
  }

  /** A codec no record has passed through yet. */
  ghost predicate NewCodec(c: Codec) {
    c.Valid() && c.inKey.None? && c.outKey.None? && c.NextIn() == 0 && c.outSeqno == 0
  }

  lemma StartIsInv(o: Oracle, x: Codec, y: Codec)
    requires NewCodec(x) && NewCodec(y)
    ensures Inv(o, StartLink(o, x, y), Progress(0, 1), Progress(0, 1))
  {
    var l := StartLink(o, x, y);
    var w, v := Wire(None, 0, SPTPS_HANDSHAKE, KexPayload(o.initiatorKex(0))),
      Wire(None, 0, SPTPS_HANDSHAKE, KexPayload(o.responderKex(0)));
    assert [] + [w] == [w] && [] + [v] == [v];
    assert l.responder.inbox == [w] && l.initiator.inbox == [v];
    FlowOfOne(o, true, w, 0, 0);
    FlowOfOne(o, false, v, 0, 0);
  }

  /** A run of the link. */
  ghost predicate IsRun(o: Oracle, l: Link, actions: seq<Action>, m: Link)
    decreases |actions|
  {
    if actions == [] then l == m
    else
      && l.initiator.session.codec.Valid() && l.responder.session.codec.Valid()
      && IsRun(o, Step(o, l, actions[0]), actions[1..], m)
  }

  /** How many application records are sent from sessions that are not established. */
  ghost function EarlySends(o: Oracle, l: Link, actions: seq<Action>, m: Link): nat
    requires IsRun(o, l, actions, m)
    decreases |actions|
  {
    if actions == [] then 0
    else (if SendsEarly(l, actions[0]) then 1 else 0) + EarlySends(o, Step(o, l, actions[0]), actions[1..], m)
  }

  /** After `n` early records: either all is well and they are all still on their way, or some have been refused. */
  ghost predicate Accounted(o: Oracle, l: Link, a: Progress, b: Progress, n: nat) {
    if l.errors == [] then Inv(o, l, a, b) && n == EarlyOnTheWay(l) else n > EarlyOnTheWay(l)
  }

  lemma StepIsAccounted(o: Oracle, l: Link, action: Action, a: Progress, b: Progress, n: nat)
    returns (a': Progress, b': Progress)
    requires Ready(l) && Accounted(o, l, a, b, n)
    ensures Ready(Step(o, l, action))
    ensures NothingMissing(l.errors) ==> NothingMissing(Step(o, l, action).errors)
    ensures Accounted(o, Step(o, l, action), a', b', n + if SendsEarly(l, action) then 1 else 0)
  {
    hide Step, Inv, EarlyIn, EarlyOnTheWay, BringsEarly, SendsEarly;
    a', b' := a, b;
    StepBalances(o, l, action);
    if l.errors == [] && !BringsEarly(l, action) {
      a', b' := StepKeepsInv(o, l, action, a, b);
      NoErrors(o, Step(o, l, action), a', b');
    }
  }

  lemma NoErrors(o: Oracle, l: Link, a: Progress, b: Progress)
    requires Inv(o, l, a, b)
    ensures l.errors == []
  {
  }

  lemma {:induction false} RunIsAccounted(o: Oracle, l: Link, actions: seq<Action>, m: Link, a: Progress, b: Progress,
      n: nat)
    returns (a': Progress, b': Progress)
    requires Ready(l) && Accounted(o, l, a, b, n) && IsRun(o, l, actions, m)
    ensures Ready(m) && (NothingMissing(l.errors) ==> NothingMissing(m.errors))
    ensures Accounted(o, m, a', b', n + EarlySends(o, l, actions, m))
    decreases |actions|
  {
    hide Accounted, Step, Ready, NothingMissing, SendsEarly;
    a', b' := a, b;
    if actions == [] {
    } else {
      a', b' := StepIsAccounted(o, l, actions[0], a, b, n);
      a', b' := RunIsAccounted(o, Step(o, l, actions[0]), actions[1..], m, a', b', n + if SendsEarly(l, actions[0])
        then 1 else 0);
    }
  }

  lemma StartIsReady(o: Oracle, x: Codec, y: Codec)
    requires NewCodec(x) && NewCodec(y)
    ensures Ready(StartLink(o, x, y)) && Accounted(o, StartLink(o, x, y), Progress(0, 1), Progress(0, 1), 0)
    ensures NothingMissing(StartLink(o, x, y).errors)
  {
    StartIsInv(o, x, y);
    var l := StartLink(o, x, y);
    HandshakeIsNotEarly(l.initiator.inbox);
    HandshakeIsNotEarly(l.responder.inbox);
    hide Inv;
  }

  lemma RunFromStart(o: Oracle, x: Codec, y: Codec, actions: seq<Action>, m: Link) returns (a: Progress, b: Progress)
    requires NewCodec(x) && NewCodec(y) && IsRun(o, StartLink(o, x, y), actions, m)
    ensures Ready(m) && NothingMissing(m.errors)
    ensures Accounted(o, m, a, b, EarlySends(o, StartLink(o, x, y), actions, m))
  {
    hide *;
    StartIsReady(o, x, y);
    a, b := RunIsAccounted(o, StartLink(o, x, y), actions, m, Progress(0, 1), Progress(0, 1), 0);
  }

  /** Whatever the interleaving, and over any number of rekeys: every delivery so far has succeeded if and only if each
      application record that was sent before its sender was established is still on its way. While that is so, each
      record was opened with the key and number it was sealed with, and the application records received, followed by
      those on their way, are exactly those sent. No handshake state is ever missing, even after a failure. */
  lemma DeliveriesSucceed(o: Oracle, x: Codec, y: Codec, actions: seq<Action>, m: Link)
    requires NewCodec(x) && NewCodec(y) && IsRun(o, StartLink(o, x, y), actions, m)
    ensures m.errors == [] <==> EarlySends(o, StartLink(o, x, y), actions, m) == EarlyOnTheWay(m)
    ensures m.errors == [] ==>
              && m.responder.got + AppsOf(m.responder.inbox) == m.initiator.sent
              && m.initiator.got + AppsOf(m.initiator.inbox) == m.responder.sent
    ensures NothingMissing(m.errors)
    ensures m.initiator.session.codec.Valid() && m.responder.session.codec.Valid()
  {
    var a, b := RunFromStart(o, x, y, actions, m);
    hide EarlySends, EarlyIn, IsRun, StartLink;
    AccountedMeans(o, m, a, b, EarlySends(o, StartLink(o, x, y), actions, m));
    hide Accounted, Ready;
  }

  lemma AccountedMeans(o: Oracle, l: Link, a: Progress, b: Progress, n: nat)
    requires Accounted(o, l, a, b, n) && Ready(l)
    ensures l.errors == [] <==> n == EarlyOnTheWay(l)
    ensures l.errors == [] ==>
              && l.responder.got + AppsOf(l.responder.inbox) == l.initiator.sent
              && l.initiator.got + AppsOf(l.initiator.inbox) == l.responder.sent
    ensures l.initiator.session.codec.Valid() && l.responder.session.codec.Valid()
  {
  }

  lemma NothingRefused(o: Oracle, l: Link, a: Progress, b: Progress)
    requires Accounted(o, l, a, b, 0)
    ensures l.errors == []
  {
  }

  lemma SomethingRefused(o: Oracle, l: Link, a: Progress, b: Progress, n: nat)
    requires Accounted(o, l, a, b, n) && n > EarlyOnTheWay(l)
    ensures l.errors != []
  {
  }

  ghost predicate DeliveriesOnly(actions: seq<Action>) {
    forall i :: 0 <= i < |actions| ==> actions[i].Deliver?
  }

  lemma {:induction false} DeliveriesSendNothing(o: Oracle, l: Link, actions: seq<Action>, m: Link)
    requires DeliveriesOnly(actions) && IsRun(o, l, actions, m)
    ensures EarlySends(o, l, actions, m) == 0
    decreases |actions|
  {
    hide Step;
    if actions == [] {
    } else {
      DeliveriesSendNothing(o, Step(o, l, actions[0]), actions[1..], m);
    }
  }

  lemma {:induction false} RunsJoin(o: Oracle, l: Link, p: seq<Action>, m: Link, q: seq<Action>, n: Link)
    requires IsRun(o, l, p, m) && IsRun(o, m, q, n)
    ensures IsRun(o, l, p + q, n)
    decreases |p|
  {
    hide Step;
    if p == [] {
      assert p + q == q;
    } else {
      RunsJoin(o, Step(o, l, p[0]), p[1..], m, q, n);
      assert (p + q)[0] == p[0] && (p + q)[1..] == p[1..] + q;
    }
  }

  /** Everything on its way to side `i` is delivered. */
  lemma {:induction false} Drain(o: Oracle, l: Link, i: bool) returns (more: seq<Action>, m: Link)
    requires Ready(l)
    ensures DeliveriesOnly(more) && IsRun(o, l, more, m) && Ready(m)
    ensures m.Side(i).inbox == [] && EarlyIn(m.Side(!i).inbox) == EarlyIn(l.Side(!i).inbox)
    decreases |l.Side(i).inbox|
  {
    hide Step, Coherent;
    if l.Side(i).inbox == [] {
      more, m := [], l;
    } else {
      CodecsAreValid(l);
      DeliveryBalances(o, l, i);
      more, m := Drain(o, Step(o, l, Deliver(i)), i);
      assert ([Deliver(i)] + more)[1..] == more;
      more := [Deliver(i)] + more;
    }
  }

  lemma CodecsAreValid(l: Link)
    requires Ready(l)
    ensures l.initiator.session.codec.Valid() && l.responder.session.codec.Valid()
  {
  }

  lemma DrainBoth(o: Oracle, l: Link) returns (more: seq<Action>, m: Link)
    requires Ready(l)
    ensures DeliveriesOnly(more) && IsRun(o, l, more, m) && EarlyOnTheWay(m) == 0
  {
    hide IsRun, Ready;
    var first, k := Drain(o, l, true);
    var second, k' := Drain(o, k, false);
    RunsJoin(o, l, first, k, second, k');
    more, m := first + second, k';
  }

  /** No delivery fails, now or later, if and only if no side has sent an application record before it was
      established. */
  lemma NoDeliveryFails(o: Oracle, x: Codec, y: Codec, actions: seq<Action>, m: Link)
    requires NewCodec(x) && NewCodec(y) && IsRun(o, StartLink(o, x, y), actions, m)
    ensures EarlySends(o, StartLink(o, x, y), actions, m) == 0 <==> AllOpenFrom(o, m)
  {
    hide *;
    var n := EarlySends(o, StartLink(o, x, y), actions, m);
    var a, b := RunFromStart(o, x, y, actions, m);
    if n == 0 {
      CleanLinkStaysClean(o, m, a, b);
    } else {
      EarlyRecordsCatchUp(o, m, a, b, n);
    }
  }

  /** Such a send is accepted: a run of one step in which the initiator sends an empty record before it has heard
      anything, and a delivery to come that fails. */
  lemma EarlyRunExists(o: Oracle, x: Codec, y: Codec) returns (m: Link)
    requires NewCodec(x) && NewCodec(y)
    ensures IsRun(o, StartLink(o, x, y), [Send(true, 0, Bytes([]))], m)
    ensures EarlySends(o, StartLink(o, x, y), [Send(true, 0, Bytes([]))], m) == 1
    ensures !AllOpenFrom(o, m)
  {
    var l, send := StartLink(o, x, y), Send(true, 0, Bytes([]));
    StartIsReady(o, x, y);
    CodecsAreValid(l);
    m := Step(o, l, send);
    assert SendsEarly(l, send);
    hide Step, StartLink, SendsEarly, NewCodec, AllOpenFrom;
    assert [send][0] == send && [send][1..] == [];
    NoDeliveryFails(o, x, y, [send], m);
  }

  /** No delivery has failed, and none will fail among those still to come. */
  ghost predicate AllOpenFrom(o: Oracle, l: Link) {
    forall more, m :: DeliveriesOnly(more) && IsRun(o, l, more, m) ==> m.errors == []
  }

  lemma CleanLinkStaysClean(o: Oracle, l: Link, a: Progress, b: Progress)
    requires Ready(l) && Accounted(o, l, a, b, 0)
    ensures AllOpenFrom(o, l)
  {
    hide IsRun, EarlySends, Accounted, Ready, DeliveriesOnly;
    forall more, m | DeliveriesOnly(more) && IsRun(o, l, more, m) ensures m.errors == [] {
      var a', b' := RunIsAccounted(o, l, more, m, a, b, 0);
      DeliveriesSendNothing(o, l, more, m);
      NothingRefused(o, m, a', b');
    }
  }

  lemma EarlyRecordsCatchUp(o: Oracle, l: Link, a: Progress, b: Progress, n: nat)
    requires Ready(l) && Accounted(o, l, a, b, n) && n > 0
    ensures !AllOpenFrom(o, l)
  {
    hide IsRun, EarlySends, Accounted, Ready;
    var more, m := DrainBoth(o, l);
    var a', b' := RunIsAccounted(o, l, more, m, a, b, n);
    SomethingRefused(o, m, a', b', n + EarlySends(o, l, more, m));
  }

  /** Whenever both sides are idle, nothing is on its way, and nothing was sent too early, each side's outgoing key is
      the other's incoming key. */
  lemma IdleKeysAreSwapped(o: Oracle, x: Codec, y: Codec, actions: seq<Action>, m: Link)
    requires NewCodec(x) && NewCodec(y) && IsRun(o, StartLink(o, x, y), actions, m)
    requires EarlySends(o, StartLink(o, x, y), actions, m) == 0
    requires m.initiator.session.state == SecondaryKex && m.responder.session.state == SecondaryKex
    requires m.initiator.inbox == [] && m.responder.inbox == []
    ensures m.initiator.session.Established() && m.responder.session.Established()
    ensures m.initiator.session.codec.outKey == m.responder.session.codec.inKey
    ensures m.responder.session.codec.outKey == m.initiator.session.codec.inKey
    ensures m.initiator.session.codec.outKey != m.initiator.session.codec.inKey
  {
    hide *;
    var a, b := RunFromStart(o, x, y, actions, m);
    NothingRefused(o, m, a, b);
    CleanIsInv(o, m, a, b);
    InvSwapsKeys(o, m, a, b);
  }

  lemma CleanIsInv(o: Oracle, l: Link, a: Progress, b: Progress)
    requires Accounted(o, l, a, b, 0) && l.errors == []
    ensures Inv(o, l, a, b)
  {
  }

  lemma InvSwapsKeys(o: Oracle, m: Link, a: Progress, b: Progress)
    requires Inv(o, m, a, b)
    requires m.initiator.session.state == SecondaryKex && m.responder.session.state == SecondaryKex
    requires m.initiator.inbox == [] && m.responder.inbox == []
    ensures m.initiator.session.Established() && m.responder.session.Established()
    ensures m.initiator.session.codec.outKey == m.responder.session.codec.inKey
    ensures m.responder.session.codec.outKey == m.initiator.session.codec.inKey
    ensures m.initiator.session.codec.outKey != m.initiator.session.codec.inKey
  {
    assert Base(a.round) == Base(b.round);
  }
}
