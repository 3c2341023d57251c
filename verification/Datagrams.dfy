/** An established datagram session behind a network that loses, repeats, reorders and injects records. */
module Datagrams {
  import opened Basics
  import opened Replay
  import opened Sptps

  // What is sent.

  /** What a session does to its outgoing side: it encodes records and changes the key. */
  datatype Item = Record(recordType: nat, payload: Payload) | NewKey(key: Key)

  /** The codec after the items, and the records it made. */
  function Sent(c: Codec, items: seq<Item>): (Codec, seq<Wire>) {
    if items == [] then (c, []) else
    var (d, wires) := Sent(c, items[..|items| - 1]);
    match items[|items| - 1]
    case Record(recordType, payload) =>
      var (e, r) := Encode(d, recordType, payload);
      (e, if r.Ok? then wires + [r.value] else wires)
    case NewKey(key) => (d.(outKey := Some(key)), wires)
  }

  lemma EncodeNumbers(c: Codec, recordType: nat, payload: Payload)
    requires c.outSeqno < MAX_U32
    ensures var (d, r) := Encode(c, recordType, payload);
            if r.Ok? then r.value.seqno == c.outSeqno && d.outSeqno == c.outSeqno + 1 else d == c
  {
  }

  /** As long as the numbers do not run out, no two records have the same. */
  lemma {:induction false} SentAreNumbered(c: Codec, items: seq<Item>)
    requires c.outSeqno + |items| <= MAX_U32
    ensures var (d, wires) := Sent(c, items);
            && d.outSeqno == c.outSeqno + |wires| && |wires| <= |items|
            && forall i :: 0 <= i < |wires| ==> wires[i].seqno == c.outSeqno + i
  {
    if items == [] {
    } else {
      SentAreNumbered(c, items[..|items| - 1]);
      var d := Sent(c, items[..|items| - 1]).0;
      if items[|items| - 1].Record? { EncodeNumbers(d, items[|items| - 1].recordType, items[|items| - 1].payload); }
      hide Encode;
    }
  }

  // What arrives.

  datatype Arrival = Arrival(w: Wire, drawn: Kex)

  /** A datagram session that has an incoming key and a window that is switched on. */
  ghost predicate Listening(s: Session) {
    && s.codec.Datagram? && s.codec.inKey.Some? && s.codec.Valid() && Usable(s.codec.inReplay)
  }

  /** What handling a handshake record leaves of the incoming side. */
  ghost predicate SameWindow(s: Session, t: Session) {
    && t.codec.Datagram? == s.codec.Datagram? && (s.codec.inKey.Some? ==> t.codec.inKey.Some?)
    && (s.codec.Datagram? ==> t.codec.inReplay == s.codec.inReplay)
  }

  lemma KexKeepsWindow(s: Session, data: Payload, drawn: Kex)
    ensures SameWindow(s, SendKex(s, drawn).session) && SameWindow(s, ReceiveKex(s, data).session)
  {
    hide Successor;
  }

  lemma SigKeepsWindow(s: Session, data: Payload)
    ensures SameWindow(s, ReceiveSig(s, data).session)
  {
    hide Successor, MaterialOf, Verifies;
  }

  lemma HandshakeKeepsWindow(s: Session, data: Payload, drawn: Kex)
    ensures SameWindow(s, ReceiveHandshake(s, data, drawn).session)
  {
    hide SendKex, ReceiveKex, ReceiveSig;
    KexKeepsWindow(s, data, drawn);
    KexKeepsWindow(SendKex(s, drawn).session, data, drawn);
    SigKeepsWindow(s, data);
  }

  lemma HandshakeHandsNothing(s: Session, data: Payload, drawn: Kex)
    ensures var r := ReceiveHandshake(s, data, drawn).result; r.Ok? ==> r.value == [] || r.value == [HandshakeComplete]
  {
    hide ReceiveKex, ReceiveSig, ReceiveAck, SendKex;
  }

  /** Whatever arrives, the session goes on listening. */
  lemma StaysListening(s: Session, a: Arrival)
    requires Listening(s)
    ensures Listening(ReceiveDatagram(s, a.w, a.drawn).session)
  {
    DecodeKeepsListening(s, a.w);
    var (codec, r) := Decode(s.codec, a.w);
    if r.Ok? { HandshakeKeepsWindow(s.(codec := codec), r.value.1, a.drawn); }
    hide Decode, ReceiveHandshake, Usable;
  }

  lemma DecodeKeepsListening(s: Session, w: Wire)
    requires Listening(s)
    ensures Listening(s.(codec := Decode(s.codec, w).0))
  {
    CheckKeepsSize(s.codec.inReplay, w.seqno);
    hide Check;
  }

  lemma ListeningIsValid(s: Session)
    requires Listening(s)
    ensures s.codec.Valid()
  {
  }

  ghost function After(s: Session, arrivals: seq<Arrival>): (t: Session)
    requires Listening(s)
    ensures Listening(t)
  {
    if arrivals == [] then s
    else
      var before := After(s, arrivals[..|arrivals| - 1]);
      StaysListening(before, arrivals[|arrivals| - 1]);
      ReceiveDatagram(before, arrivals[|arrivals| - 1].w, arrivals[|arrivals| - 1].drawn).session
  }

  /** What the application is handed. */
  ghost function Log(s: Session, arrivals: seq<Arrival>): seq<(nat, Payload)>
    requires Listening(s)
  {
    if arrivals == [] then []
    else
      var front, last := arrivals[..|arrivals| - 1], arrivals[|arrivals| - 1];
      var r := ReceiveDatagram(After(s, front), last.w, last.drawn).result;
      Log(s, front) + if r.Ok? then AppRecords(r.value) else []
  }

  /** Nobody but the sender seals records under a key the receiver listens to: each arrival was sent, or is sealed
      otherwise or not at all. */
  ghost predicate Honest(s: Session, arrivals: seq<Arrival>, sent: seq<Wire>)
    requires Listening(s)
  {
    forall i :: 0 <= i < |arrivals| ==>
      arrivals[i].w in sent || arrivals[i].w.key != After(s, arrivals[..i]).codec.inKey
  }

  // One arrival.

  /** The window of a datagram session that refines the set of numbers it has accepted. */
  ghost predicate Tracks(s: Session, accepted: set<nat>) {
    s.codec.Datagram? && Usable(s.codec.inReplay) && Refines(s.codec.inReplay, accepted)
  }

  /** An arrival is handed over, as it is, exactly when it is an application record sealed under the current key and the
      window admits its number; the number is then new. */
  lemma OneArrival(s: Session, a: Arrival, accepted: set<nat>) returns (accepted': set<nat>)
    requires Listening(s) && Tracks(s, accepted)
    requires a.w.key == s.codec.inKey ==> a.w.seqno < MAX_U32
    ensures var out := ReceiveDatagram(s, a.w, a.drawn);
            var handed := if out.result.Ok? then AppRecords(out.result.value) else [];
            && Tracks(out.session, accepted') && accepted <= accepted'
            && (handed == [] || (handed == [(a.w.recordType, a.w.payload)] && a.w.key == s.codec.inKey
                                 && a.w.seqno !in accepted && a.w.seqno in accepted'))
            && (handed != [] <==> a.w.key == s.codec.inKey && a.w.recordType < SPTPS_HANDSHAKE
                                  && Admits(s.codec.inReplay, accepted, a.w.seqno))
  {
    hide Check, Refines, AppRecords, Admits;
    var (codec, r) := Decode(s.codec, a.w);
    accepted' := DecodeRefines(s, a.w, accepted);
    OneRecordIsHanded(a.w.recordType, a.w.payload);
    DecodeKeepsListening(s, a.w);
    if r.Ok? {
      HandshakeKeepsWindow(s.(codec := codec), r.value.1, a.drawn);
      HandshakeHandsNothing(s.(codec := codec), r.value.1, a.drawn);
    }
    hide ReceiveHandshake, Decode;
  }

  lemma OneRecordIsHanded(recordType: nat, payload: Payload)
    ensures AppRecords([]) == [] && AppRecords([HandshakeComplete]) == []
    ensures AppRecords([ApplicationRecord(recordType, payload)]) == [(recordType, payload)]
  {
    assert [HandshakeComplete][..0] == [] && [ApplicationRecord(recordType, payload)][..0] == [];
  }

  lemma DecodeRefines(s: Session, w: Wire, accepted: set<nat>) returns (accepted': set<nat>)
    requires Listening(s) && Refines(s.codec.inReplay, accepted) && (w.key == s.codec.inKey ==> w.seqno < MAX_U32)
    ensures var (codec, r) := Decode(s.codec, w);
            && codec.Datagram? && Refines(codec.inReplay, accepted') && accepted <= accepted'
            && (r.Ok? ==> r.value == (w.recordType, w.payload) && w.key == s.codec.inKey
                          && w.seqno !in accepted && w.seqno in accepted')
            && (r.Ok? <==> w.key == s.codec.inKey && w.recordType <= SPTPS_HANDSHAKE
                           && Admits(s.codec.inReplay, accepted, w.seqno))
  {
    hide Check, Refines, Admits;
    accepted' := accepted;
    if w.key == s.codec.inKey {
      CheckRefines(s.codec.inReplay, w.seqno, accepted);
      if Check(s.codec.inReplay, w.seqno, true).1 == Accepted { accepted' := accepted + {w.seqno as nat}; }
    }
  }

  // All arrivals.

  /** The records of the log, by where they are among those sent: no place twice. */
  ghost predicate Places(log: seq<(nat, Payload)>, sent: seq<Wire>, places: seq<nat>) {
    && |places| == |log|
    && (forall j :: 0 <= j < |log| ==>
          places[j] < |sent| && log[j] == (sent[places[j]].recordType, sent[places[j]].payload))
    && (forall i, j :: 0 <= i < j < |log| ==> places[i] != places[j])
  }

  ghost predicate AllSeen(sent: seq<Wire>, places: seq<nat>, accepted: set<nat>) {
    forall j :: 0 <= j < |places| ==> places[j] < |sent| && sent[places[j]].seqno as nat in accepted
  }

  lemma OnePlaceMore(log: seq<(nat, Payload)>, sent: seq<Wire>, places: seq<nat>, accepted: set<nat>, w: Wire)
    returns (place: nat)
    requires Places(log, sent, places) && AllSeen(sent, places, accepted) && w in sent && w.seqno as nat !in accepted
    ensures place < |sent| && sent[place] == w && Places(log + [(w.recordType, w.payload)], sent, places + [place])
  {
    place :| 0 <= place < |sent| && sent[place] == w;
  }

  lemma TracksWindow(s: Session, accepted: set<nat>)
    requires Listening(s)
    ensures s.codec.Datagram? && (Tracks(s, accepted) <==> Refines(s.codec.inReplay, accepted))
  {
  }

  lemma {:induction false} ArrivalsArePlaced(s: Session, arrivals: seq<Arrival>, sent: seq<Wire>, accepted: set<nat>)
    returns (places: seq<nat>, accepted': set<nat>)
    requires Listening(s) && Refines(s.codec.inReplay, accepted) && Honest(s, arrivals, sent)
    requires forall w :: w in sent ==> w.seqno < MAX_U32
    ensures Places(Log(s, arrivals), sent, places) && AllSeen(sent, places, accepted')
    ensures Refines(After(s, arrivals).codec.inReplay, accepted')
    decreases |arrivals|
  {
    hide Refines, ReceiveDatagram, AppRecords, Listening;
    if arrivals == [] {
      places, accepted' := [], accepted;
    } else {
      var front, last := arrivals[..|arrivals| - 1], arrivals[|arrivals| - 1];
      forall i | 0 <= i < |front|
        ensures front[i].w in sent || front[i].w.key != After(s, front[..i]).codec.inKey
      {
        assert front[i] == arrivals[i] && front[..i] == arrivals[..i];
      }
      var seen: set<nat>;
      places, seen := ArrivalsArePlaced(s, front, sent, accepted);
      var t := After(s, front);
      ListeningIsValid(t);
      assert arrivals[..|arrivals| - 1] == front;
      TracksWindow(t, seen);
      accepted' := OneArrival(t, last, seen);
      TracksWindow(After(s, arrivals), accepted');
      var out := ReceiveDatagram(t, last.w, last.drawn);
      var handed := if out.result.Ok? then AppRecords(out.result.value) else [];
      assert Log(s, arrivals) == Log(s, front) + handed;
      if handed == [] {
        assert Log(s, front) + [] == Log(s, front);
      } else {
        var place := OnePlaceMore(Log(s, front), sent, places, seen, last.w);
        places := places + [place];
      }
    }
  }

  /** An established datagram session whose peer has not run out of numbers, behind a network that may lose, repeat and
      reorder what the peer sends and add whatever is not sealed under the session's key, over any rekeying: everything
      the application is handed was sent, and nothing that was sent is handed over twice. */
  lemma RecordsArriveAtMostOnce(peer: Codec, items: seq<Item>, s: Session, accepted: set<nat>, arrivals: seq<Arrival>)
    returns (places: seq<nat>)
    requires peer.outSeqno + |items| <= MAX_U32
    requires Listening(s) && Refines(s.codec.inReplay, accepted) && Honest(s, arrivals, Sent(peer, items).1)
    ensures Places(Log(s, arrivals), Sent(peer, items).1, places)
  {
    hide Refines, Listening, Honest, Log;
    var sent := Sent(peer, items).1;
    SentAreNumbered(peer, items);
    hide Sent;
    var seen: set<nat>;
    places, seen := ArrivalsArePlaced(s, arrivals, sent, accepted);
  }

  // From the start of a session.

  lemma DecodeKeepsTrack(s: Session, w: Wire, accepted: set<nat>) returns (accepted': set<nat>)
    requires Tracks(s, accepted) && s.codec.Valid() && w.seqno < MAX_U32
    ensures Tracks(s.(codec := Decode(s.codec, w).0), accepted')
  {
    CheckRefines(s.codec.inReplay, w.seqno, accepted);
    CheckKeepsSize(s.codec.inReplay, w.seqno);
    hide Check, Refines;
    var taken := if Check(s.codec.inReplay, w.seqno, true).1 == Accepted then accepted + {w.seqno as nat} else accepted;
    accepted' := if Refines(Decode(s.codec, w).0.inReplay, accepted) then accepted else taken;
  }

  lemma CallKeepsTrack(s: Session, call: Call, accepted: set<nat>) returns (accepted': set<nat>)
    requires Tracks(s, accepted) && s.codec.Valid() && (call.ReceiveCall? ==> call.w.seqno < MAX_U32)
    ensures Tracks(Called(s, call).0, accepted')
  {
    accepted' := accepted;
    if call.ReceiveCall? {
      accepted' := DecodeKeepsTrack(s, call.w, accepted);
      var (codec, r) := Decode(s.codec, call.w);
      if r.Ok? { HandshakeKeepsWindow(s.(codec := codec), r.value.1, call.drawn); }
      hide Decode, ReceiveHandshake, Refines, Usable;
    }
  }

  /** Whatever a datagram session has been through since it started, its window refines the set of some numbers, so the
      result above applies as soon as it has an incoming key, unless the largest number has arrived. */
  lemma {:induction false} SessionTracks(initiator: bool, myKey: nat, peerKey: nat, sessionLabel: string, codec: Codec,
      drawn: Kex, calls: seq<Call>) returns (accepted: set<nat>)
    requires codec.Datagram? && codec.inReplay == NewWindow(codec.inReplay.windowBytes) && Usable(codec.inReplay)
    requires codec.inKey.None? && codec.outKey.None?
    requires forall c :: c in calls && c.ReceiveCall? ==> c.w.seqno < MAX_U32
    ensures Coherent(StartSession(initiator, myKey, peerKey, sessionLabel, codec, drawn))
    ensures var t := CalledAll(StartSession(initiator, myKey, peerKey, sessionLabel, codec, drawn), calls).0;
            Tracks(t, accepted) && (t.codec.inKey.Some? ==> Listening(t))
    decreases |calls|
  {
    var s := StartSession(initiator, myKey, peerKey, sessionLabel, codec, drawn);
    NothingIsEverMissing(initiator, myKey, peerKey, sessionLabel, codec, drawn, calls);
    if calls == [] {
      accepted := {};
    } else {
      var rest, last := calls[..|calls| - 1], calls[|calls| - 1];
      var before := SessionTracks(initiator, myKey, peerKey, sessionLabel, codec, drawn, rest);
      var t := CalledAll(s, rest).0;
      assert last in calls;
      accepted := CallKeepsTrack(t, last, before);
      CallIsCoherent(t, last);
    }
    hide Called, StartSession, Refines;
  }
}
