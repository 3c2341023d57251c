/** Two nodes that exchange data-channel keys over FIFO links: any number of rounds, started by either side at any
    time. */
module KeyLink {
  import opened Basics
  import opened Names
  import opened Sptps
  import opened KeyExchange

  /** Who the two nodes are; `low` has the smaller name. */
  datatype Parties = Parties(low: Name, high: Name, lowKey: nat, highKey: nat, lowWindow: nat, highWindow: nat) {
    predicate Valid() { NameLess(low, high) }

    function NameOf(i: bool): Name { if i then low else high }

    function KeyOf(i: bool): nat { if i then lowKey else highKey }

    function WindowOf(i: bool): nat { if i then lowWindow else highWindow }

    /** The label of a round that side `i` initiates. */
    function LabelOf(i: bool): string { UdpLabel(NameOf(i), NameOf(!i)) }
  }

  datatype Peer = Peer(exchange: Exchange, inbox: seq<KeyMessage>, events: seq<KeyEvent>)

  datatype Pair = Pair(low: Peer, high: Peer, errors: seq<KeyError>) {
    predicate Valid() { low.exchange.Valid() && high.exchange.Valid() }

    function Side(i: bool): Peer { if i then low else high }

    function With(i: bool, mine: Peer, theirs: Peer): Pair {
      if i then this.(low := mine, high := theirs) else this.(low := theirs, high := mine)
    }
  }

  /** What happens next, with the KEX that is drawn if one is needed. */
  datatype Action = Start(byLow: bool, drawn: Kex) | Deliver(toLow: bool, drawn: Kex)

  /** A call on side `i` has returned: what it sends is on its way. */
  function Returned(p: Pair, i: bool, inbox: seq<KeyMessage>, reply: Reply): Pair {
    var me, peer := p.Side(i).(exchange := reply.exchange, inbox := inbox), p.Side(!i);
    match reply.result
    case Ok(r) => p.With(i, me.(events := me.events + r.events), peer.(inbox := peer.inbox + r.outbound))
    case Err(e) => p.With(i, me, peer).(errors := p.errors + [e])
  }

  function Step(p: Pair, action: Action): Pair
    requires p.Valid()
  {
    match action
    case Start(i, drawn) =>
      Returned(p, i, p.Side(i).inbox, StartInitiator(p.Side(i).exchange, p.Side(!i).exchange.myself, drawn))
    case Deliver(i, drawn) =>
      var inbox := p.Side(i).inbox;
      if inbox == [] then p else Returned(p, i, inbox[1..], ReceiveKeyMessage(p.Side(i).exchange, inbox[0], drawn))
  }

  /** A round: who initiated it and what the two sides drew. */
  datatype Round = Round(byLow: bool, ask: Kex, answer: Kex)

  /** Where the current round stands. */
  datatype Phase =
    | Quiet
    | Asked(byLow: bool, ask: Kex)
    | BothAsked(lowAsk: Kex, highAsk: Kex)
    | LowIgnored(lowAsk: Kex, highAsk: Kex)
    | HighAnswered(highAsk: Kex, round: Round)
    | Answered(round: Round)
    | Signed(round: Round)
    | Closing(round: Round)
    | ClosingAsked(round: Round, ask: Kex)

  // The four records of a round, and the sessions between them.

  function KexWire(k: Kex): Wire { Wire(None, 0, SPTPS_HANDSHAKE, KexPayload(k)) }

  function SigWire(c: Parties, r: Round, byInitiator: bool): Wire {
    var i := if byInitiator then r.byLow else !r.byLow;
    var (mine, theirs) := if byInitiator then (r.ask, r.answer) else (r.answer, r.ask);
    Wire(None, 1, SPTPS_HANDSHAKE, SigPayload(Signature(c.KeyOf(i), byInitiator, mine, theirs, c.LabelOf(r.byLow))))
  }

  function Asker(c: Parties, i: bool, ask: Kex): Session {
    Drained(StartSession(true, c.KeyOf(i), c.KeyOf(!i), c.LabelOf(i), NewCodec(c.WindowOf(i)), ask))
  }

  /** A responder before it has read the request. */
  function Starter(c: Parties, i: bool, answer: Kex): Session {
    StartSession(false, c.KeyOf(i), c.KeyOf(!i), c.LabelOf(!i), NewCodec(c.WindowOf(i)), answer)
  }

  function Answerer(c: Parties, r: Round): (s: Session) {
    StarterIs(c, !r.byLow, r.answer);
    Drained(ReceiveDatagram(Starter(c, !r.byLow, r.answer), KexWire(r.ask), r.answer).session)
  }

  function Signer(c: Parties, r: Round): Session {
    AskerIs(c, r.byLow, r.ask);
    Drained(ReceiveDatagram(Asker(c, r.byLow, r.ask), KexWire(r.answer), r.ask).session)
  }

  function ResponderExport(c: Parties, r: Round): Session {
    AnswererIs(c, r, r.answer);
    Drained(ReceiveDatagram(Answerer(c, r), SigWire(c, r, true), r.answer).session)
  }

  function InitiatorExport(c: Parties, r: Round): Session {
    SignerIs(c, r, r.ask);
    Drained(ReceiveDatagram(Signer(c, r), SigWire(c, r, false), r.ask).session)
  }

  function ExportOf(c: Parties, i: bool, r: Round): Session {
    if i == r.byLow then InitiatorExport(c, r) else ResponderExport(c, r)
  }

  /** A codec that has sent and received `n` records in the clear. */
  ghost predicate Clear(c: Codec, sent: u32, received: u32) {
    c.Valid() && c.Datagram? && c.inKey.None? && c.outKey.None? && c.outSeqno == sent && c.NextIn() == received
  }

  lemma AskerIs(c: Parties, i: bool, ask: Kex)
    ensures var s := Asker(c, i, ask);
            && s == Session(true, c.LabelOf(i), c.KeyOf(i), c.KeyOf(!i), s.codec, Kexing, Some(ask.publicKey),
              Some(ask), None, None, [])
            && Clear(s.codec, 1, 0)
    ensures StartSession(true, c.KeyOf(i), c.KeyOf(!i), c.LabelOf(i), NewCodec(c.WindowOf(i)), ask).outbound
              == [KexWire(ask)]
  {
  }

  lemma StarterIs(c: Parties, i: bool, answer: Kex)
    ensures var s := Starter(c, i, answer);
            && s == Session(false, c.LabelOf(!i), c.KeyOf(i), c.KeyOf(!i), s.codec, Kexing, Some(answer.publicKey),
              Some(answer), None, None, [KexWire(answer)])
            && Clear(s.codec, 1, 0)
  {
  }

  lemma AnswererIs(c: Parties, r: Round, drawn: Kex)
    ensures Starter(c, !r.byLow, r.answer).codec.Valid()
    ensures var (out, s) := (ReceiveDatagram(Starter(c, !r.byLow, r.answer), KexWire(r.ask), drawn), Answerer(c, r));
            && out == Outcome(s.(outbound := [KexWire(r.answer)]), Ok([]))
            && s == Session(false, c.LabelOf(r.byLow), c.KeyOf(!r.byLow), c.KeyOf(r.byLow), s.codec, Sig,
              Some(r.answer.publicKey), Some(r.answer), Some(r.ask), None, [])
            && Clear(s.codec, 1, 1)
  {
    StarterIs(c, !r.byLow, r.answer);
    var s := Starter(c, !r.byLow, r.answer);
    DecodeInOrder(s.codec, KexWire(r.ask));
    hide Decode, StartSession, UdpLabel;
  }

  lemma SignerIs(c: Parties, r: Round, drawn: Kex)
    ensures var (out, s) := (ReceiveDatagram(Asker(c, r.byLow, r.ask), KexWire(r.answer), drawn), Signer(c, r));
            && out == Outcome(s.(outbound := [SigWire(c, r, true)]), Ok([]))
            && s == Session(true, c.LabelOf(r.byLow), c.KeyOf(r.byLow), c.KeyOf(!r.byLow), s.codec, Sig,
              Some(r.ask.publicKey), Some(r.ask), Some(r.answer), None, [])
            && Clear(s.codec, 2, 1)
  {
    AskerIs(c, r.byLow, r.ask);
    DecodeInOrder(Asker(c, r.byLow, r.ask).codec, KexWire(r.answer));
    hide Decode, StartSession, UdpLabel;
  }

  function MaterialOfRound(c: Parties, r: Round): KeyMaterial {
    KeyMaterial(SharedWith(r.ask.publicKey, r.answer.publicKey), r.ask.nonce, r.answer.nonce, c.LabelOf(r.byLow))
  }

  lemma ResponderFinishes(c: Parties, r: Round, drawn: Kex)
    ensures Answerer(c, r).codec.Valid()
    ensures var (out, s) := (ReceiveDatagram(Answerer(c, r), SigWire(c, r, true), drawn), ResponderExport(c, r));
            && out == Outcome(s.(outbound := [SigWire(c, r, false)]), Ok([HandshakeComplete]))
            && s.sessionLabel == c.LabelOf(r.byLow) && !s.initiator
            && s.codec.inKey == Some(Key(MaterialOfRound(c, r), true))
            && s.codec.outKey == Some(Key(MaterialOfRound(c, r), false))
  {
    AnswererIs(c, r, drawn);
    DecodeInOrder(Answerer(c, r).codec, SigWire(c, r, true));
    hide Decode, StartSession, UdpLabel, Answerer;
  }

  lemma InitiatorFinishes(c: Parties, r: Round, drawn: Kex)
    ensures Signer(c, r).codec.Valid()
    ensures var (out, s) := (ReceiveDatagram(Signer(c, r), SigWire(c, r, false), drawn), InitiatorExport(c, r));
            && out == Outcome(s, Ok([HandshakeComplete])) && s.outbound == []
            && s.sessionLabel == c.LabelOf(r.byLow) && s.initiator
            && s.codec.inKey == Some(Key(MaterialOfRound(c, r), false))
            && s.codec.outKey == Some(Key(MaterialOfRound(c, r), true))
  {
    SignerIs(c, r, drawn);
    DecodeInOrder(Signer(c, r).codec, SigWire(c, r, false));
    hide Decode, StartSession, UdpLabel, Signer;
  }

  // The invariant: the phase and the finished rounds fix both sides and both channels.

  /** The session side `i` holds. */
  function SessionIn(c: Parties, phase: Phase, i: bool): Option<Session> {
    match phase
    case Quiet => None
    case Asked(byLow, ask) => if i == byLow then Some(Asker(c, i, ask)) else None
    case BothAsked(lowAsk, highAsk) => Some(Asker(c, i, if i then lowAsk else highAsk))
    case LowIgnored(lowAsk, highAsk) => Some(Asker(c, i, if i then lowAsk else highAsk))
    case HighAnswered(_, r) => Some(if i then Asker(c, i, r.ask) else Answerer(c, r))
    case Answered(r) => Some(if i == r.byLow then Asker(c, i, r.ask) else Answerer(c, r))
    case Signed(r) => Some(if i == r.byLow then Signer(c, r) else Answerer(c, r))
    case Closing(r) => if i == r.byLow then Some(Signer(c, r)) else None
    case ClosingAsked(r, ask) => Some(if i == r.byLow then Signer(c, r) else Asker(c, i, ask))
  }

  function Request(c: Parties, i: bool, ask: Kex): KeyMessage {
    KeyMessage(InitialRequest, c.NameOf(i), c.NameOf(!i), KexWire(ask))
  }

  function Answer(c: Parties, i: bool, w: Wire): KeyMessage {
    KeyMessage(HandshakeAnswer, c.NameOf(i), c.NameOf(!i), w)
  }

  /** What is on its way to side `i`. */
  function InboxIn(c: Parties, phase: Phase, i: bool): seq<KeyMessage> {
    match phase
    case Quiet => []
    case Asked(byLow, ask) => if i == byLow then [] else [Request(c, !i, ask)]
    case BothAsked(lowAsk, highAsk) => [Request(c, !i, if i then highAsk else lowAsk)]
    case LowIgnored(lowAsk, _) => if i then [] else [Request(c, true, lowAsk)]
    case HighAnswered(highAsk, r) => if i then [Request(c, false, highAsk), Answer(c, false, KexWire(r.answer))] else []
    case Answered(r) => if i == r.byLow then [Answer(c, !i, KexWire(r.answer))] else []
    case Signed(r) => if i == r.byLow then [] else [Answer(c, !i, SigWire(c, r, true))]
    case Closing(r) => if i == r.byLow then [Answer(c, !i, SigWire(c, r, false))] else []
    case ClosingAsked(r, ask) => if i == r.byLow then [Answer(c, !i, SigWire(c, r, false)), Request(c, !i, ask)] else []
  }

  function Exports(c: Parties, done: seq<Round>, i: bool): seq<KeyEvent> {
    if done == [] then []
    else Exports(c, done[..|done| - 1], i) + [Established(c.NameOf(!i), ExportOf(c, i, done[|done| - 1]))]
  }

  /** A responder is done one message before the initiator. */
  function EventsIn(c: Parties, phase: Phase, done: seq<Round>, i: bool): seq<KeyEvent> {
    if (phase.Closing? || phase.ClosingAsked?) && i != phase.round.byLow then Exports(c, done + [phase.round], i)
    else Exports(c, done, i)
  }

  ghost predicate ExchangeIs(c: Parties, i: bool, x: Exchange, session: Option<Session>) {
    && x.Valid() && x.myself == c.NameOf(i) && x.privateKey == c.KeyOf(i) && x.windowBytes == c.WindowOf(i)
    && c.NameOf(!i) in x.peerKeys && x.peerKeys[c.NameOf(!i)] == c.KeyOf(!i)
    && (c.NameOf(!i) in x.sessions <==> session.Some?)
    && (session.Some? ==> x.sessions[c.NameOf(!i)] == session.value)
  }

  ghost predicate WellFormed(phase: Phase) {
    phase.HighAnswered? ==> phase.round.byLow
  }

  ghost predicate SideIs(c: Parties, i: bool, me: Peer, session: Option<Session>, inbox: seq<KeyMessage>,
      events: seq<KeyEvent>) {
    ExchangeIs(c, i, me.exchange, session) && me.inbox == inbox && me.events == events
  }

  ghost predicate Inv(c: Parties, p: Pair, phase: Phase, done: seq<Round>) {
    && c.Valid() && p.errors == [] && WellFormed(phase)
    && SideIs(c, true, p.low, SessionIn(c, phase, true), InboxIn(c, phase, true), EventsIn(c, phase, done, true))
    && SideIs(c, false, p.high, SessionIn(c, phase, false), InboxIn(c, phase, false), EventsIn(c, phase, done, false))
  }

  // What each kind of message does to the side that gets it.

  lemma OneMessage(myself: Name, peer: Name, w: Wire, initialRequest: bool)
    ensures OutboundMessages(myself, peer, [w], initialRequest)
         == [KeyMessage(if initialRequest then InitialRequest else HandshakeAnswer, myself, peer, w)]
    ensures OutboundMessages(myself, peer, [], initialRequest) == []
  {
  }

  lemma AskIsSent(c: Parties, i: bool, x: Exchange, drawn: Kex)
    requires ExchangeIs(c, i, x, None)
    ensures var r := StartInitiator(x, c.NameOf(!i), drawn);
            ExchangeIs(c, i, r.exchange, Some(Asker(c, i, drawn)))
              && r.result == Ok(KeyResult([Request(c, i, drawn)], []))
  {
    AskerIs(c, i, drawn);
    OneMessage(c.NameOf(i), c.NameOf(!i), KexWire(drawn), true);
    hide StartSession, UdpLabel;
  }

  lemma PendingAskIsKept(c: Parties, i: bool, x: Exchange, s: Session, drawn: Kex)
    requires ExchangeIs(c, i, x, Some(s))
    ensures StartInitiator(x, c.NameOf(!i), drawn) == Reply(x, Ok(KeyResult([], [])))
  {
  }

  lemma NamesDiffer(c: Parties)
    requires c.Valid()
    ensures c.low != c.high && NameLess(c.low, c.high) && !NameLess(c.high, c.low)
  {
    NameOrder();
  }

  lemma LowIgnores(c: Parties, x: Exchange, mine: Kex, theirs: Kex, drawn: Kex)
    requires c.Valid() && ExchangeIs(c, true, x, Some(Asker(c, true, mine)))
    ensures ReceiveKeyMessage(x, Request(c, false, theirs), drawn) == Reply(x, Ok(KeyResult([], [])))
  {
    NamesDiffer(c);
    AskerIs(c, true, mine);
    hide NameLess, UdpLabel, Asker;
  }

  /** A request is answered, unless the lower side has asked itself. */
  lemma RequestIsAnswered(c: Parties, i: bool, x: Exchange, held: Option<Session>, ask: Kex, drawn: Kex)
    requires c.Valid() && ExchangeIs(c, i, x, held) && (i ==> held.None?)
    ensures var (r, round) := (ReceiveKeyMessage(x, Request(c, !i, ask), drawn), Round(!i, ask, drawn));
            && ExchangeIs(c, i, r.exchange, Some(Answerer(c, round)))
            && r.result == Ok(KeyResult([Answer(c, i, KexWire(drawn))], []))
  {
    NamesDiffer(c);
    AnswererIs(c, Round(!i, ask, drawn), drawn);
    OneMessage(c.NameOf(i), c.NameOf(!i), KexWire(drawn), false);
    hide NameLess, UdpLabel, StartSession, ReceiveDatagram;
    assert Drained(Answerer(c, Round(!i, ask, drawn)).(outbound := [KexWire(drawn)]))
      == Answerer(c, Round(!i, ask, drawn));
  }

  /** A record of the handshake moves the session on, or ends it. */
  lemma AnswerIsHandled(c: Parties, i: bool, x: Exchange, s: Session, w: Wire, drawn: Kex, next: Session,
      sent: seq<Wire>, done: bool)
    requires c.Valid() && ExchangeIs(c, i, x, Some(s)) && s.codec.Valid() && next.codec.Valid() && next.outbound == []
             && |sent| <= 1
    requires ReceiveDatagram(s, w, drawn)
               == Outcome(next.(outbound := sent), Ok(if done then [HandshakeComplete] else []))
    ensures var r := ReceiveKeyMessage(x, Answer(c, !i, w), drawn);
            && ExchangeIs(c, i, r.exchange, if done then None else Some(next))
            && r.result == Ok(KeyResult(if sent == [] then [] else [Answer(c, i, sent[0])],
                                        if done then [Established(c.NameOf(!i), next)] else []))
  {
    NamesDiffer(c);
    hide NameLess, UdpLabel, ReceiveDatagram;
    OneMessage(c.NameOf(i), c.NameOf(!i), if sent == [] then w else sent[0], false);
    assert sent != [] ==> sent == [sent[0]];
    assert PeerRecords(c.NameOf(!i), []) == [];
    assert [HandshakeComplete][..0] == [];
    assert PeerRecords(c.NameOf(!i), [HandshakeComplete]) == [];
    assert Drained(next.(outbound := sent)) == next;
    assert [] + [Established(c.NameOf(!i), next)] == [Established(c.NameOf(!i), next)];
  }

  // The transitions of the whole pair.

  function AfterStart(phase: Phase, i: bool, drawn: Kex): Phase {
    match phase
    case Quiet => Asked(i, drawn)
    case Asked(byLow, ask) => if byLow == i then phase else if i then BothAsked(drawn, ask) else BothAsked(ask, drawn)
    case Closing(r) => if r.byLow == i then phase else ClosingAsked(r, drawn)
    case _ => phase
  }

  /** The phase after the oldest message to side `i` has been handled; nothing changes if there is none. */
  function AfterDelivery(phase: Phase, i: bool, drawn: Kex): Phase {
    match phase
    case Quiet => phase
    case Asked(byLow, ask) => if i == byLow then phase else Answered(Round(byLow, ask, drawn))
    case BothAsked(lowAsk, highAsk) => if i then LowIgnored(lowAsk, highAsk)
      else HighAnswered(highAsk, Round(true, lowAsk, drawn))
    case LowIgnored(lowAsk, _) => if i then phase else Answered(Round(true, lowAsk, drawn))
    case HighAnswered(_, r) => if i then Answered(r) else phase
    case Answered(r) => if i == r.byLow then Signed(r) else phase
    case Signed(r) => if i == r.byLow then phase else Closing(r)
    case Closing(r) => if i == r.byLow then Quiet else phase
    case ClosingAsked(r, ask) => if i == r.byLow then Asked(!r.byLow, ask) else phase
  }

  function DoneAfter(phase: Phase, done: seq<Round>, action: Action): seq<Round> {
    if action.Deliver? && (phase.Closing? || phase.ClosingAsked?) && action.toLow == phase.round.byLow
    then done + [phase.round] else done
  }

  function PhaseAfter(phase: Phase, action: Action): Phase {
    match action
    case Start(i, drawn) => AfterStart(phase, i, drawn)
    case Deliver(i, drawn) => AfterDelivery(phase, i, drawn)
  }

  ghost predicate Holds(c: Parties, i: bool, me: Peer, phase: Phase, done: seq<Round>) {
    SideIs(c, i, me, SessionIn(c, phase, i), InboxIn(c, phase, i), EventsIn(c, phase, done, i))
  }

  lemma InvOfSide(c: Parties, p: Pair, phase: Phase, done: seq<Round>, i: bool)
    ensures Inv(c, p, phase, done) <==> (
      c.Valid() && p.errors == [] && WellFormed(phase) && Holds(c, i, p.Side(i), phase, done)
        && Holds(c, !i, p.Side(!i), phase, done))
  {
  }

  lemma StartKeepsInv(c: Parties, p: Pair, phase: Phase, done: seq<Round>, i: bool, drawn: Kex)
    requires Inv(c, p, phase, done) && p.Valid()
    ensures Inv(c, Step(p, Start(i, drawn)), AfterStart(phase, i, drawn), done)
  {
    hide Asker, Answerer, Signer, Exports, ExchangeIs, NameLess, UdpLabel, Inv, InboxIn, EventsIn, Step;
    if SessionIn(c, phase, i).None? {
      AskKeepsInv(c, p, phase, done, i, drawn);
    } else {
      PendingKeepsInv(c, p, phase, done, i, drawn);
    }
  }

  lemma AskKeepsInv(c: Parties, p: Pair, phase: Phase, done: seq<Round>, i: bool, drawn: Kex)
    requires Inv(c, p, phase, done) && p.Valid() && SessionIn(c, phase, i).None?
    ensures Inv(c, Step(p, Start(i, drawn)), AfterStart(phase, i, drawn), done)
  {
    hide StartInitiator, Asker, Answerer, Signer, Exports, ExchangeIs, NameLess, UdpLabel, Inv;
    InvOfSide(c, p, phase, done, i);
    NameOfExchange(c, !i, p.Side(!i).exchange, SessionIn(c, phase, !i));
    AskIsSent(c, i, p.Side(i).exchange, drawn);
    InvOfSide(c, Step(p, Start(i, drawn)), AfterStart(phase, i, drawn), done, i);
  }

  lemma PendingKeepsInv(c: Parties, p: Pair, phase: Phase, done: seq<Round>, i: bool, drawn: Kex)
    requires Inv(c, p, phase, done) && p.Valid() && SessionIn(c, phase, i).Some?
    ensures AfterStart(phase, i, drawn) == phase
    ensures Inv(c, Step(p, Start(i, drawn)), phase, done)
  {
    hide StartInitiator, Asker, Answerer, Signer, Exports, ExchangeIs, NameLess, UdpLabel, Inv;
    InvOfSide(c, p, phase, done, i);
    NameOfExchange(c, !i, p.Side(!i).exchange, SessionIn(c, phase, !i));
    PendingAskIsKept(c, i, p.Side(i).exchange, SessionIn(c, phase, i).value, drawn);
    InvOfSide(c, Step(p, Start(i, drawn)), phase, done, i);
  }

  lemma NameOfExchange(c: Parties, i: bool, x: Exchange, s: Option<Session>)
    requires ExchangeIs(c, i, x, s)
    ensures x.myself == c.NameOf(i) && x.Valid()
  {
  }

  /** The phases in which the side that gets a message has to answer a request. */
  lemma RequestKeepsInv(c: Parties, p: Pair, phase: Phase, done: seq<Round>, i: bool, drawn: Kex)
    requires Inv(c, p, phase, done) && p.Valid() && p.Side(i).inbox != []
    requires phase.Asked? || phase.LowIgnored? || (phase.BothAsked? && !i)
    ensures Inv(c, Step(p, Deliver(i, drawn)), AfterDelivery(phase, i, drawn), done)
  {
    hide ReceiveKeyMessage, Asker, Answerer, Signer, Exports, ExchangeIs, NameLess, UdpLabel, Inv, KexWire;
    InvOfSide(c, p, phase, done, i);
    var q := Step(p, Deliver(i, drawn));
    var ask := if phase.Asked? then phase.ask else phase.lowAsk;
    assert p.Side(i).inbox == [Request(c, !i, ask)];
    RequestIsAnswered(c, i, p.Side(i).exchange, SessionIn(c, phase, i), ask, drawn);
    InvOfSide(c, q, AfterDelivery(phase, i, drawn), done, i);
  }

  lemma IgnoredKeepsInv(c: Parties, p: Pair, phase: Phase, done: seq<Round>, drawn: Kex)
    requires Inv(c, p, phase, done) && p.Valid()
    requires phase.BothAsked? || phase.HighAnswered?
    ensures Inv(c, Step(p, Deliver(true, drawn)), AfterDelivery(phase, true, drawn), done)
  {
    hide ReceiveKeyMessage, Asker, Answerer, Signer, Exports, ExchangeIs, NameLess, UdpLabel, Inv, KexWire;
    InvOfSide(c, p, phase, done, true);
    var q := Step(p, Deliver(true, drawn));
    var mine := if phase.BothAsked? then phase.lowAsk else phase.round.ask;
    assert p.low.inbox[0] == Request(c, false, phase.highAsk);
    LowIgnores(c, p.low.exchange, mine, phase.highAsk, drawn);
    InvOfSide(c, q, AfterDelivery(phase, true, drawn), done, true);
  }

  lemma KexAnswerKeepsInv(c: Parties, p: Pair, r: Round, done: seq<Round>, drawn: Kex)
    requires Inv(c, p, Answered(r), done) && p.Valid()
    ensures Inv(c, Step(p, Deliver(r.byLow, drawn)), Signed(r), done)
  {
    hide ReceiveKeyMessage, ReceiveDatagram, StartSession, Asker, Answerer, Signer, ResponderExport, InitiatorExport,
      Exports, ExchangeIs, NameLess, UdpLabel, Inv, KexWire, SigWire, MaterialOfRound;
    InvOfSide(c, p, Answered(r), done, r.byLow);
    AskerIs(c, r.byLow, r.ask);
    SignerIs(c, r, drawn);
    AnswerIsHandled(c, r.byLow, p.Side(r.byLow).exchange, Asker(c, r.byLow, r.ask), KexWire(r.answer), drawn,
      Signer(c, r), [SigWire(c, r, true)], false);
    InvOfSide(c, Step(p, Deliver(r.byLow, drawn)), Signed(r), done, r.byLow);
  }

  lemma SigKeepsInv(c: Parties, p: Pair, r: Round, done: seq<Round>, drawn: Kex)
    requires Inv(c, p, Signed(r), done) && p.Valid()
    ensures Inv(c, Step(p, Deliver(!r.byLow, drawn)), Closing(r), done)
  {
    hide ReceiveKeyMessage, ReceiveDatagram, StartSession, Asker, Answerer, Signer, ResponderExport, InitiatorExport,
      Exports, ExchangeIs, NameLess, UdpLabel, Inv, KexWire, SigWire, MaterialOfRound;
    InvOfSide(c, p, Signed(r), done, !r.byLow);
    ResponderFinishes(c, r, drawn);
    FinishedCodecs(c, r, drawn);
    AnswerIsHandled(c, !r.byLow, p.Side(!r.byLow).exchange, Answerer(c, r), SigWire(c, r, true), drawn,
      ResponderExport(c, r), [SigWire(c, r, false)], true);
    ExportsGrow(c, done, r);
    InvOfSide(c, Step(p, Deliver(!r.byLow, drawn)), Closing(r), done, !r.byLow);
  }

  lemma LastSigKeepsInv(c: Parties, p: Pair, phase: Phase, done: seq<Round>, drawn: Kex)
    requires phase.Closing? || phase.ClosingAsked?
    requires Inv(c, p, phase, done) && p.Valid()
    ensures Inv(c, Step(p, Deliver(phase.round.byLow, drawn)), AfterDelivery(phase, phase.round.byLow, drawn),
              done + [phase.round])
  {
    hide ReceiveKeyMessage, ReceiveDatagram, StartSession, Asker, Answerer, Signer, ResponderExport, InitiatorExport,
      Exports, ExchangeIs, NameLess, UdpLabel, Inv, KexWire, SigWire, MaterialOfRound;
    var r := phase.round;
    InvOfSide(c, p, phase, done, r.byLow);
    InitiatorFinishes(c, r, drawn);
    FinishedCodecs(c, r, drawn);
    AnswerIsHandled(c, r.byLow, p.Side(r.byLow).exchange, Signer(c, r), SigWire(c, r, false), drawn,
      InitiatorExport(c, r), [], true);
    ExportsGrow(c, done, r);
    InvOfSide(c, Step(p, Deliver(r.byLow, drawn)), AfterDelivery(phase, r.byLow, drawn), done + [r], r.byLow);
  }

  lemma AnswerKeepsInv(c: Parties, p: Pair, phase: Phase, done: seq<Round>, i: bool, drawn: Kex)
    requires Inv(c, p, phase, done) && p.Valid() && p.Side(i).inbox != []
    requires phase.Answered? || phase.Signed? || phase.Closing? || phase.ClosingAsked?
    ensures Inv(c, Step(p, Deliver(i, drawn)), AfterDelivery(phase, i, drawn),
              DoneAfter(phase, done, Deliver(i, drawn)))
  {
    hide Step, ExchangeIs, Asker, Answerer, Signer, Exports;
    assert i == if phase.Signed? then !phase.round.byLow else phase.round.byLow;
    hide Inv;
    if phase.Answered? {
      KexAnswerKeepsInv(c, p, phase.round, done, drawn);
    } else if phase.Signed? {
      SigKeepsInv(c, p, phase.round, done, drawn);
    } else {
      LastSigKeepsInv(c, p, phase, done, drawn);
    }
  }

  lemma ExportsGrow(c: Parties, done: seq<Round>, r: Round)
    ensures forall i :: Exports(c, done + [r], i)
              == Exports(c, done, i) + [Established(c.NameOf(!i), ExportOf(c, i, r))]
  {
    assert (done + [r])[..|done|] == done;
  }

  lemma FinishedCodecs(c: Parties, r: Round, drawn: Kex)
    ensures ResponderExport(c, r).codec.Valid() && ResponderExport(c, r).outbound == []
    ensures InitiatorExport(c, r).codec.Valid() && InitiatorExport(c, r).outbound == []
  {
    AnswererIs(c, r, drawn);
    SignerIs(c, r, drawn);
    DecodeInOrder(Answerer(c, r).codec, SigWire(c, r, true));
    DecodeInOrder(Signer(c, r).codec, SigWire(c, r, false));
    hide Decode, StartSession, UdpLabel, Answerer, Signer;
  }

  lemma StepKeepsInv(c: Parties, p: Pair, phase: Phase, done: seq<Round>, action: Action)
    requires Inv(c, p, phase, done) && p.Valid()
    ensures Inv(c, Step(p, action), PhaseAfter(phase, action), DoneAfter(phase, done, action))
  {
    hide Inv, Step;
    match action
    case Start(i, drawn) => StartKeepsInv(c, p, phase, done, i, drawn);
    case Deliver(i, drawn) =>
      if p.Side(i).inbox == [] {
        NothingToDeliver(c, p, phase, done, i, drawn);
      } else if i && (phase.BothAsked? || phase.HighAnswered?) {
        IgnoredKeepsInv(c, p, phase, done, drawn);
      } else if phase.Asked? || phase.LowIgnored? || phase.BothAsked? {
        RequestKeepsInv(c, p, phase, done, i, drawn);
      } else {
        SomethingIsPending(c, p, phase, done, i);
        AnswerKeepsInv(c, p, phase, done, i, drawn);
      }
  }

  lemma SomethingIsPending(c: Parties, p: Pair, phase: Phase, done: seq<Round>, i: bool)
    requires Inv(c, p, phase, done) && p.Side(i).inbox != []
    ensures phase != Quiet && (phase.HighAnswered? ==> i)
  {
    hide Asker, Answerer, Signer, ExchangeIs, Exports, ExportOf;
  }

  lemma NothingToDeliver(c: Parties, p: Pair, phase: Phase, done: seq<Round>, i: bool, drawn: Kex)
    requires Inv(c, p, phase, done) && p.Valid() && p.Side(i).inbox == []
    ensures AfterDelivery(phase, i, drawn) == phase && DoneAfter(phase, done, Deliver(i, drawn)) == done
    ensures Step(p, Deliver(i, drawn)) == p
  {
    hide Asker, Answerer, Signer, ExchangeIs, Exports, ExportOf, ReceiveKeyMessage;
  }

  // Runs.

  /** Two nodes that know each other's keys and have nothing pending with each other. */
  ghost predicate IsStart(c: Parties, p: Pair) {
    && c.Valid() && p.errors == []
    && SideIs(c, true, p.low, None, [], []) && SideIs(c, false, p.high, None, [], [])
  }

  ghost predicate IsRun(p: Pair, actions: seq<Action>, q: Pair)
    decreases |actions|
  {
    if actions == [] then p == q else p.Valid() && IsRun(Step(p, actions[0]), actions[1..], q)
  }

  /** Once both sides have asked, the lower one initiates the next round, the one with number `n`. */
  ghost predicate LowIsNext(phase: Phase, done: seq<Round>, n: nat) {
    || (|done| > n && done[n].byLow)
    || (|done| == n && (phase.BothAsked? || phase.LowIgnored? || (phase.HighAnswered? && phase.round.byLow)
                        || ((phase.Answered? || phase.Signed? || phase.Closing? || phase.ClosingAsked?)
                          && phase.round.byLow)))
  }

  lemma {:induction false} RunKeepsInv(c: Parties, p: Pair, actions: seq<Action>, q: Pair, phase: Phase,
      done: seq<Round>, n: nat)
    returns (phase': Phase, done': seq<Round>)
    requires Inv(c, p, phase, done) && IsRun(p, actions, q)
    ensures Inv(c, q, phase', done') && done <= done'
    ensures LowIsNext(phase, done, n) ==> LowIsNext(phase', done', n)
    decreases |actions|
  {
    hide Inv, Step;
    phase', done' := phase, done;
    if actions == [] {
    } else {
      StepKeepsInv(c, p, phase, done, actions[0]);
      phase', done' := RunKeepsInv(c, Step(p, actions[0]), actions[1..], q, PhaseAfter(phase, actions[0]),
        DoneAfter(phase, done, actions[0]), n);
    }
  }

  lemma {:induction false} ExportsAt(c: Parties, done: seq<Round>, i: bool, k: nat)
    requires k < |done|
    ensures |Exports(c, done, i)| == |done|
            && Exports(c, done, i)[k] == Established(c.NameOf(!i), ExportOf(c, i, done[k]))
  {
    hide ExportOf;
    var rest := done[..|done| - 1];
    if k < |rest| {
      ExportsAt(c, rest, i, k);
    } else if rest != [] {
      ExportsAt(c, rest, i, 0);
    }
  }

  /** The two sessions of a round: one label, swapped keys, one initiator. */
  ghost predicate Matched(c: Parties, low: KeyEvent, high: KeyEvent) {
    && low.Established? && high.Established? && low.peer == c.high && high.peer == c.low
    && low.session.sessionLabel == high.session.sessionLabel == c.LabelOf(low.session.initiator)
    && low.session.initiator != high.session.initiator
    && low.session.Established() && high.session.Established()
    && low.session.codec.outKey == high.session.codec.inKey && high.session.codec.outKey == low.session.codec.inKey
    && low.session.codec.outKey != low.session.codec.inKey
  }

  lemma RoundIsMatched(c: Parties, r: Round)
    ensures Matched(c, Established(c.high, ExportOf(c, true, r)), Established(c.low, ExportOf(c, false, r)))
    ensures forall i :: ExportOf(c, i, r).initiator == (i == r.byLow)
  {
    ResponderFinishes(c, r, r.ask);
    InitiatorFinishes(c, r, r.ask);
    hide ResponderExport, InitiatorExport, MaterialOfRound, UdpLabel;
  }

  /** The rounds that at least one side has finished. */
  function Begun(phase: Phase, done: seq<Round>): seq<Round> {
    if phase.Closing? || phase.ClosingAsked? then done + [phase.round] else done
  }

  lemma EventsAreExports(c: Parties, phase: Phase, done: seq<Round>, i: bool, k: nat)
    requires k < |EventsIn(c, phase, done, i)|
    ensures |done| <= |EventsIn(c, phase, done, i)| <= |Begun(phase, done)|
    ensures EventsIn(c, phase, done, i)[k] == Established(c.NameOf(!i), ExportOf(c, i, Begun(phase, done)[k]))
  {
    hide Exports;
    var listed := if (phase.Closing? || phase.ClosingAsked?) && i != phase.round.byLow then done + [phase.round]
      else done;
    if listed == [] {
      assert Exports(c, listed, i) == [] by { NoExports(c, i); }
    } else {
      ExportsAt(c, listed, i, 0);
      ExportsAt(c, listed, i, k);
    }
  }

  lemma NoExports(c: Parties, i: bool)
    ensures Exports(c, [], i) == []
  {
  }

  lemma EventCount(c: Parties, phase: Phase, done: seq<Round>, i: bool)
    ensures |done| <= |EventsIn(c, phase, done, i)| <= |Begun(phase, done)|
  {
    hide Exports, ExportOf;
    NoExports(c, i);
    if done != [] { ExportsAt(c, done, i, 0); }
    if phase.Closing? || phase.ClosingAsked? { ExportsGrow(c, done, phase.round); }
  }

  /** Over any number of rounds started by either side at any time, and any interleaving of the deliveries: no call
      fails, so in particular no session is ever missing; and the sessions the two sides hand out pair up, round by
      round, with one label and swapped keys. */
  lemma RoundsMatch(c: Parties, p: Pair, actions: seq<Action>, q: Pair)
    requires IsStart(c, p) && IsRun(p, actions, q)
    ensures q.errors == [] && q.Valid()
    ensures -1 <= |q.low.events| - |q.high.events| <= 1
    ensures forall k :: 0 <= k < |q.low.events| && k < |q.high.events| ==> Matched(c, q.low.events[k], q.high.events[k])
  {
    StartIsInv(c, p);
    var phase, done := RunKeepsInv(c, p, actions, q, Quiet, [], 0);
    hide Exports, ExportOf, ExchangeIs, Matched, Asker, Answerer, Signer, IsStart;
    EventCount(c, phase, done, true);
    EventCount(c, phase, done, false);
    forall k | 0 <= k < |q.low.events| && k < |q.high.events| ensures Matched(c, q.low.events[k], q.high.events[k]) {
      EventsAreExports(c, phase, done, true, k);
      EventsAreExports(c, phase, done, false, k);
      RoundIsMatched(c, Begun(phase, done)[k]);
    }
  }

  /** When nothing is on its way, no session is left half open and both sides have finished the same rounds. */
  lemma SilenceIsCompletion(c: Parties, p: Pair, actions: seq<Action>, q: Pair)
    requires IsStart(c, p) && IsRun(p, actions, q) && q.low.inbox == [] && q.high.inbox == []
    ensures c.high !in q.low.exchange.sessions && c.low !in q.high.exchange.sessions
    ensures |q.low.events| == |q.high.events|
  {
    hide Inv, IsRun, IsStart;
    StartIsInv(c, p);
    var phase, done := RunKeepsInv(c, p, actions, q, Quiet, [], 0);
    SilenceIsQuiet(c, q, phase, done);
    QuietCount(c, q, done);
  }

  lemma StartIsInv(c: Parties, p: Pair)
    requires IsStart(c, p)
    ensures Inv(c, p, Quiet, [])
  {
  }

  lemma SilenceIsQuiet(c: Parties, q: Pair, phase: Phase, done: seq<Round>)
    requires Inv(c, q, phase, done) && q.low.inbox == [] && q.high.inbox == []
    ensures phase == Quiet && c.high !in q.low.exchange.sessions && c.low !in q.high.exchange.sessions
  {
    hide Asker, Answerer, Signer, Exports, ExportOf;
  }

  lemma QuietCount(c: Parties, q: Pair, done: seq<Round>)
    requires Inv(c, q, Quiet, done)
    ensures |q.low.events| == |q.high.events| == |done|
  {
    hide Asker, Answerer, Signer, Exports, ExportOf;
    EventCount(c, Quiet, done, true);
    EventCount(c, Quiet, done, false);
  }

  /** Side `i` has been given the session of a round that the lower name initiated. */
  ghost predicate InitiatedByLow(c: Parties, i: bool, e: KeyEvent) {
    e.Established? && e.peer == c.NameOf(!i) && e.session.initiator == i
      && e.session.sessionLabel == UdpLabel(c.low, c.high)
  }

  lemma NextIsLow(c: Parties, m: Pair, phase: Phase, done: seq<Round>, n: nat, i: bool)
    requires Inv(c, m, phase, done) && LowIsNext(phase, done, n) && |m.Side(i).events| > n
    ensures InitiatedByLow(c, i, m.Side(i).events[n])
  {
    hide Exports, ExportOf, ExchangeIs, UdpLabel, Asker, Answerer, Signer;
    EventsAreExports(c, phase, done, i, n);
    RoundIsMatched(c, Begun(phase, done)[n]);
  }

  /** Side `i` has asked and heard nothing back. */
  ghost predicate IsAsking(c: Parties, p: Pair, i: bool) {
    var sessions := p.Side(i).exchange.sessions;
    c.NameOf(!i) in sessions && sessions[c.NameOf(!i)].initiator && sessions[c.NameOf(!i)].state == Kexing
  }

  lemma BothAreAsking(c: Parties, p: Pair, phase: Phase, done: seq<Round>)
    requires Inv(c, p, phase, done) && IsAsking(c, p, true) && IsAsking(c, p, false)
    ensures phase.BothAsked? || phase.LowIgnored?
    ensures p.low.events == EventsIn(c, phase, done, true) && p.high.events == EventsIn(c, phase, done, false)
  {
    HeldStates(c, phase, true);
    HeldStates(c, phase, false);
    hide Asker, Answerer, Signer, Exports, ExportOf;
  }

  /** Only a side that has asked and heard nothing is an initiator that waits for a KEX. */
  lemma HeldStates(c: Parties, phase: Phase, i: bool)
    ensures var s := SessionIn(c, phase, i);
            s.Some? && s.value.initiator && s.value.state == Kexing ==>
              phase.Asked? || phase.BothAsked? || phase.LowIgnored? || (phase.HighAnswered? && i)
              || (phase.Answered? && i == phase.round.byLow) || (phase.ClosingAsked? && i != phase.round.byLow)
  {
    if phase.HighAnswered? || phase.Answered? || phase.Signed? || phase.Closing? || phase.ClosingAsked? {
      AnswererIs(c, phase.round, phase.round.answer);
      SignerIs(c, phase.round, phase.round.answer);
    }
    hide Asker, Answerer, Signer;
  }

  /** Starts that cross: whenever both sides are asking at once, wherever their requests are and whatever went before,
      the session each side is handed next is the one the lower name initiates; and it is handed that session before the
      links fall silent. */
  lemma LowerNameInitiates(c: Parties, p: Pair, actions: seq<Action>, q: Pair, more: seq<Action>, m: Pair)
    requires IsStart(c, p) && IsRun(p, actions, q) && IsAsking(c, q, true) && IsAsking(c, q, false)
    requires IsRun(q, more, m)
    ensures forall i ::
              |m.Side(i).events| > |q.Side(i).events| ==> InitiatedByLow(c, i, m.Side(i).events[|q.Side(i).events|])
    ensures m.low.inbox == [] && m.high.inbox == [] ==> forall i :: |m.Side(i).events| > |q.Side(i).events|
  {
    hide Inv, IsRun, IsStart, InitiatedByLow, IsAsking, Exports;
    StartIsInv(c, p);
    var phase, done := RunKeepsInv(c, p, actions, q, Quiet, [], 0);
    BothAreAsking(c, q, phase, done);
    EventCount(c, phase, done, true);
    EventCount(c, phase, done, false);
    var phase', done' := RunKeepsInv(c, q, more, m, phase, done, |done|);
    forall i | |m.Side(i).events| > |q.Side(i).events|
      ensures InitiatedByLow(c, i, m.Side(i).events[|q.Side(i).events|]) {
      NextIsLow(c, m, phase', done', |done|, i);
    }
    if m.low.inbox == [] && m.high.inbox == [] {
      SilenceIsQuiet(c, m, phase', done');
      QuietCount(c, m, done');
    }
  }
}
