/** The receiving side of a meta connection: a byte stream cut into lines, SPTPS records and raw bodies. Which comes
    next depends on what the frames before it said, so the framing changes in the middle of a buffer. */
module Framing {
  import opened Basics
  import opened Messages
  import Names
  import Sptps

  const NEWLINE: byte := 10
  const CARRIAGE_RETURN: byte := 13
  const PROT_MAJOR := 17
  const SPTPS_META_RECORD := 0
  const SPTPS_TCP_HEADER_LEN := 3
  const SPTPS_TCP_AUTH_OVERHEAD := 19
  const MAX_SPTPS_TCP_RECORD_BUFFER_SIZE := 0xffff + SPTPS_TCP_AUTH_OVERHEAD

  datatype AuthState = ExpectId | Handshake | ExpectAck | Activated

  datatype BodyKind = TcpBody | SptpsBody

  datatype BodyRequest = BodyRequest(kind: BodyKind, length: nat)

  datatype Frame = Line(text: string) | SptpsRecord(record: Data) | Body(kind: BodyKind, data: Data)

  datatype AuthError =
    | InvalidPeerName(name: string)
    | SelfConnection(name: string)
    | IncompatibleProtocol(major: int)
    | UnsupportedLegacyProtocol(minor: int)
    | UnexpectedMessage(expecting: AuthState)
    | UnexpectedRawRecord(inState: AuthState)
    | UnexpectedAckShape
    | MissingPeer
    | MissingSession
    | SptpsFailed(failure: Sptps.SptpsError)

  datatype Error =
    | InvalidUtf8
    | InputBufferFull(maximum: nat, actual: nat)
    | ParseFailed(text: string)
    | AuthFailed(auth: AuthError)
    | PacketLengthMismatch(expected: nat, got: nat)

  /** What a session makes of a record. */
  datatype SessionEvent = HandshakeComplete | Application(recordType: nat, payload: Data)

  datatype Received<+S> = Received(session: S, outbound: seq<Data>, events: seq<SessionEvent>)

  datatype AuthEvent =
    | SptpsHandshakeComplete(peer: string)
    | ConnectionActivated(peer: string, port: string, weight: int, options: nat)
    | ApplicationRecord(recordType: nat, payload: Data)

  datatype Event =
    | Message(message: MetaMessage)
    | Auth(event: AuthEvent)
    | UnknownRecord(recordType: nat, payload: Data)
    | TcpPacketData(packet: Data)
    | SptpsPacketData(packet: Data)

  /** The connection's settings, and what it calls: text decoding, the message parser and the SPTPS session. A session
      includes the stream of random numbers it will draw. */
  datatype Env<!S> = Env(
    maximum: nat, myself: string, outgoing: bool, bypassSecurity: bool,
    localWeight: int, localOptions: nat, ackLine: Data,
    utf8: Data -> Option<string>,
    parse: string -> Result<MetaMessage, string>,
    negotiate: (nat, nat) -> nat,
    startTcp: (string, string) -> Received<S>,
    receive: (S, Data) -> Result<Received<S>, Sptps.SptpsError>,
    send: (S, nat, Data) -> Result<(S, Data), Sptps.SptpsError>,
    encrypted: S -> bool)

  datatype AuthView<+S> = AuthView(peer: Option<string>, session: Option<S>, state: AuthState)

  /** A connection without its input buffer. */
  datatype Core<+S> = Core(auth: AuthView<S>, pendingBody: Option<BodyRequest>, pendingTcpPacket: Option<nat>)

  datatype Stream<+S> = Stream(buffer: Data, core: Core<S>)

  /** What a call hands to its caller. */
  datatype Step = Step(outbound: seq<Data>, events: seq<Event>) {
    function Plus(later: Step): Step { Step(outbound + later.outbound, events + later.events) }
  }

  const NOTHING := Step([], [])

  datatype Went<+T> = Went(state: T, step: Step)

  type Outcome<+T> = Result<Went<T>, Error>

  /** An outcome reached after `step` had been handed out. */
  function After<T>(step: Step, r: Outcome<T>): Outcome<T> {
    if r.Err? then r else Ok(Went(r.value.state, step.Plus(r.value.step)))
  }

  lemma AfterTwice<T>(a: Step, b: Step, r: Outcome<T>)
    ensures After(a, After(b, r)) == After(a.Plus(b), r)
    ensures After(NOTHING, r) == r
  {
    if r.Ok? {
      var c := r.value.step;
      assert a.outbound + (b.outbound + c.outbound) == a.outbound + b.outbound + c.outbound;
      assert a.events + (b.events + c.events) == a.events + b.events + c.events;
      assert [] + c.outbound == c.outbound && [] + c.events == c.events;
    }
  }

  // The authentication state machine.

  datatype AuthStep = AuthStep(rawOutbound: seq<Data>, sendAck: bool, events: seq<AuthEvent>)

  predicate UsesPlaintext<S>(env: Env<S>, state: AuthState) {
    env.bypassSecurity && (state == ExpectAck || state == Activated)
  }

  predicate LineMode<S>(env: Env<S>, state: AuthState) { state == ExpectId || UsesPlaintext(env, state) }

  predicate InEncrypted<S>(env: Env<S>, session: Option<S>) { session.Some? && env.encrypted(session.value) }

  /** Halved towards zero, as machine integers are. */
  function HalfTowardsZero(x: int): int { if x >= 0 then x / 2 else -(-x / 2) }

  function ReceiveId<S>(env: Env<S>, a: AuthView<S>, name: string, major: int,
      minor: Option<int>): Result<(AuthView<S>, AuthStep), AuthError> {
    if a.state != ExpectId then Err(UnexpectedMessage(a.state))
    else if !Names.CheckId(name) then Err(InvalidPeerName(name))
    else if name == env.myself then Err(SelfConnection(name))
    else if major != PROT_MAJOR then Err(IncompatibleProtocol(major))
    else if env.bypassSecurity then Ok((a.(peer := Some(name), state := ExpectAck), AuthStep([], true, [])))
    else if minor.None? || minor.value < 2 then Err(UnsupportedLegacyProtocol(if minor.None? then 0 else minor.value))
    else
      var started := if env.outgoing then env.startTcp(env.myself, name) else env.startTcp(name, env.myself);
      Ok((AuthView(Some(name), Some(started.session), Handshake), AuthStep(started.outbound, false, [])))
  }

  function ReceiveAck<S>(env: Env<S>, a: AuthView<S>, ack: AckMessage): Result<(AuthView<S>, AuthStep), AuthError> {
    if a.state != ExpectAck then Err(UnexpectedMessage(a.state))
    else if !ack.Connection? then Err(UnexpectedAckShape)
    else if a.peer.None? then Err(MissingPeer)
    else Ok((a.(state := Activated),
             AuthStep([], false,
               [ConnectionActivated(a.peer.value, ack.port, HalfTowardsZero(env.localWeight + ack.weight),
                                                      env.negotiate(env.localOptions, ack.options))])))
  }

  function ReceiveMessage<S>(env: Env<S>, a: AuthView<S>, m: MetaMessage): Result<(AuthView<S>, AuthStep), AuthError> {
    match m
    case Id(name, major, minor) => ReceiveId(env, a, name, major, minor)
    case Ack(ack) => ReceiveAck(env, a, ack)
    case _ => Err(UnexpectedMessage(a.state))
  }

  function ApplicationRecords(events: seq<SessionEvent>): seq<AuthEvent> {
    if events == [] then []
    else ApplicationRecords(events[..|events| - 1]) +
         (var e := events[|events| - 1]; if e.Application? then [ApplicationRecord(e.recordType, e.payload)] else [])
  }

  function ReceiveRecord<S>(env: Env<S>, a: AuthView<S>, record: Data): Result<(AuthView<S>, AuthStep), AuthError> {
    if a.state == ExpectId then Err(UnexpectedRawRecord(a.state))
    else if a.peer.None? then Err(MissingPeer)
    else if a.session.None? then Err(MissingSession)
    else
      var r := env.receive(a.session.value, record);
      if r.Err? then Err(SptpsFailed(r.error)) else
      var completed := HandshakeComplete in r.value.events;
      var first := completed && a.state == Handshake;
      Ok((a.(session := Some(r.value.session), state := if first then ExpectAck else a.state),
          AuthStep(r.value.outbound, first, (if completed then [SptpsHandshakeComplete(a.peer.value)] else [])
                     + ApplicationRecords(r.value.events))))
  }

  // Handling a frame. An application record may hold a line, and a line may complete the authentication.

  function CountApplications(events: seq<AuthEvent>): nat {
    if events == [] then 0 else (if events[0].ApplicationRecord? then 1 else 0) + CountApplications(events[1..])
  }

  function SendAck<S>(env: Env<S>, core: Core<S>): Outcome<Core<S>> {
    if UsesPlaintext(env, core.auth.state) then Ok(Went(core, Step([env.ackLine], [])))
    else if core.auth.session.None? then Err(AuthFailed(MissingSession))
    else
      var r := env.send(core.auth.session.value, SPTPS_META_RECORD, env.ackLine);
      if r.Err? then Err(AuthFailed(SptpsFailed(r.error)))
      else Ok(Went(core.(auth := core.auth.(session := Some(r.value.0))), Step([r.value.1], [])))
  }

  function ApplyAuthStep<S>(env: Env<S>, core: Core<S>, a: AuthStep): Outcome<Core<S>>
    decreases CountApplications(a.events), 3, 0
  {
    var sent := if a.sendAck then SendAck(env, core) else Ok(Went(core, NOTHING));
    if sent.Err? then sent else
    After(Step(a.rawOutbound, []).Plus(sent.value.step), ApplyEvents(env, sent.value.state, a.events))
  }

  function ApplyEvents<S>(env: Env<S>, core: Core<S>, events: seq<AuthEvent>): Outcome<Core<S>>
    decreases CountApplications(events), 2, |events|
  {
    if events == [] then Ok(Went(core, NOTHING))
    else
      var r := if events[0].ApplicationRecord?
        then HandleApplication(env, core, events[0].recordType, events[0].payload)
               else Ok(Went(core, Step([], [Auth(events[0])])));
      if r.Err? then r else After(r.value.step, ApplyEvents(env, r.value.state, events[1..]))
  }

  function HandleApplication<S>(env: Env<S>, core: Core<S>, recordType: nat, payload: Data): Outcome<Core<S>>
    decreases 0, 5, 0
  {
    if recordType != SPTPS_META_RECORD then Ok(Went(core, Step([], [UnknownRecord(recordType, payload)])))
    else if core.pendingTcpPacket.Some? then
      if |payload| != core.pendingTcpPacket.value then Err(PacketLengthMismatch(core.pendingTcpPacket.value, |payload|))
      else Ok(Went(core.(pendingTcpPacket := None), Step([], [TcpPacketData(payload)])))
    else
      var line := env.utf8(Trimmed(payload));
      if line.None? then Err(InvalidUtf8) else HandleMetaLine(env, core, line.value, false)
  }

  function HandleMetaLine<S>(env: Env<S>, core: Core<S>, line: string, plaintext: bool): Outcome<Core<S>>
    decreases 0, 4, 0
  {
    var parsed := env.parse(line);
    if parsed.Err? then Err(ParseFailed(parsed.error)) else
    var told := Step([], [Message(parsed.value)]);
    if core.auth.state != Activated then
      var r := ReceiveMessage(env, core.auth, parsed.value);
      if r.Err? then Err(AuthFailed(r.error)) else
      assert CountApplications(r.value.1.events) == 0;
      After(told, ApplyAuthStep(env, core.(auth := r.value.0), r.value.1))
    else Ok(Went(Observed(core, parsed.value, plaintext), told))
  }

  /** A packet header announces the body that follows: raw in the stream, or, for a TCP packet under SPTPS, as the next
      record. */
  function Observed<S>(core: Core<S>, m: MetaMessage, plaintext: bool): Core<S> {
    match m
    case TcpPacket(length) =>
      if plaintext then core.(pendingBody := Some(BodyRequest(TcpBody, length)))
      else core.(pendingTcpPacket := Some(length))
    case SptpsTcpPacket(length) => core.(pendingBody := Some(BodyRequest(SptpsBody, length)))
    case _ => core
  }

  function Trimmed(line: Data): Data {
    var a := if line != [] && line[|line| - 1] == NEWLINE then line[..|line| - 1] else line;
    if a != [] && a[|a| - 1] == CARRIAGE_RETURN then a[..|a| - 1] else a
  }

  function HandleFrame<S>(env: Env<S>, core: Core<S>, frame: Frame): Outcome<Core<S>> {
    match frame
    case Line(text) => HandleMetaLine(env, core, text, true)
    case SptpsRecord(record) =>
      var r := ReceiveRecord(env, core.auth, record);
      if r.Err? then Err(AuthFailed(r.error)) else ApplyAuthStep(env, core.(auth := r.value.0), r.value.1)
    case Body(kind, data) =>
      Ok(Went(core, Step([], [if kind == TcpBody then TcpPacketData(data) else SptpsPacketData(data)])))
  }

  // Cutting frames.

  function NewlineAt(buffer: Data): Option<nat> {
    if buffer == [] then None
    else if buffer[0] == NEWLINE then Some(0)
    else var rest := NewlineAt(buffer[1..]); if rest.Some? then Some(rest.value + 1) else None
  }

  function RecordLength(buffer: Data, encrypted: bool): nat
    requires |buffer| >= 2
  {
    buffer[0] * 256 + buffer[1] + (if encrypted then SPTPS_TCP_AUTH_OVERHEAD else SPTPS_TCP_HEADER_LEN)
  }

  lemma {:induction false} NewlineIsThere(buffer: Data)
    ensures NewlineAt(buffer).Some? ==> NewlineAt(buffer).value < |buffer|
  {
    if buffer == [] {
    } else {
      NewlineIsThere(buffer[1..]);
    }
  }

  predicate BodyReady<S>(core: Core<S>, buffer: Data) {
    core.pendingBody.Some? && |buffer| >= core.pendingBody.value.length
  }

  /** How many bytes the next frame takes, once they are all there. A pending body comes first when it is complete.
      While it is not, a strict reader waits for the rest of it; this reader goes on to look for a line or a record in
      the part of the body it already has. */
  function NextLength<S>(env: Env<S>, strict: bool, core: Core<S>, buffer: Data): (r: Option<nat>)
    ensures r.Some? ==> r.value <= |buffer| && (r.value > 0 || BodyReady(core, buffer))
  {
    if BodyReady(core, buffer) then Some(core.pendingBody.value.length)
    else if strict && core.pendingBody.Some? then None
    else if LineMode(env, core.auth.state) then
      NewlineIsThere(buffer);
      if NewlineAt(buffer).Some? then Some(NewlineAt(buffer).value + 1) else None
    else if |buffer| < 2 then None
    else
      var expected := RecordLength(buffer, InEncrypted(env, core.auth.session));
      if |buffer| < expected then None else Some(expected)
  }

  /** The frame made of `bytes`, and what is left to do with the rest of the connection. */
  function TakeFrame<S>(env: Env<S>, core: Core<S>, bytes: Data): Outcome<Core<S>> {
    if BodyReady(core, bytes) then
      HandleFrame(env, core.(pendingBody := None), Body(core.pendingBody.value.kind, bytes))
    else if LineMode(env, core.auth.state) then
      var text := env.utf8(Trimmed(bytes));
      if text.None? then Err(InvalidUtf8) else HandleFrame(env, core, Line(text.value))
    else HandleFrame(env, core, SptpsRecord(bytes))
  }

  function Append<S>(d: Stream<S>, data: Data): Stream<S> { d.(buffer := d.buffer + data) }

  /** Cut and handle frames until none is complete. */
  function Drain<S>(env: Env<S>, strict: bool, d: Stream<S>): Outcome<Stream<S>>
    decreases |d.buffer|, if d.core.pendingBody.Some? then 1 else 0
  {
    var n := NextLength(env, strict, d.core, d.buffer);
    if n.None? then Ok(Went(d, NOTHING)) else
    var r := TakeFrame(env, d.core, d.buffer[..n.value]);
    if r.Err? then Err(r.error)
    else After(r.value.step, Drain(env, strict, Stream(d.buffer[n.value..], r.value.state)))
  }

  /** The buffer's limit, and how many more bytes are asked for. */
  function InputWindow<S>(env: Env<S>, d: Stream<S>): Result<(nat, int), Error> {
    if d.core.pendingBody.Some? then
      var length := d.core.pendingBody.value.length;
      if length > env.maximum then Err(InputBufferFull(env.maximum, length)) else Ok((env.maximum, length - |d.buffer|))
    else if LineMode(env, d.core.auth.state) then Ok((env.maximum, env.maximum - |d.buffer|))
    else if |d.buffer| < 2 then Ok((MAX_SPTPS_TCP_RECORD_BUFFER_SIZE, 2 - |d.buffer|))
    else Ok((MAX_SPTPS_TCP_RECORD_BUFFER_SIZE,
      RecordLength(d.buffer, InEncrypted(env, d.core.auth.session)) - |d.buffer|))
  }

  /** One more byte can be taken in. */
  predicate HasRoom<S>(env: Env<S>, d: Stream<S>) {
    InputWindow(env, d).Ok? && InputWindow(env, d).value.1 > 0
  }

  function ReceiveRest<S>(env: Env<S>, d: Stream<S>, data: Data): Outcome<Stream<S>>
    decreases |data|
  {
    if data == [] then Ok(Went(d, NOTHING)) else
    var w := InputWindow(env, d);
    if w.Err? then Err(w.error)
    else if w.value.1 <= 0 then Err(InputBufferFull(w.value.0, |d.buffer| + |data|)) else
    var take := Min(|data|, w.value.1);
    var r := Drain(env, false, Append(d, data[..take]));
    if r.Err? then r else After(r.value.step, ReceiveRest(env, r.value.state, data[take..]))
  }

  /** One call with the bytes that have arrived. */
  function Receive<S>(env: Env<S>, d: Stream<S>, data: Data): Outcome<Stream<S>> {
    var r := Drain(env, false, d);
    if r.Err? then r else After(r.value.step, ReceiveRest(env, r.value.state, data))
  }

  // Splitting.

  function ReceiveAll<S>(env: Env<S>, d: Stream<S>, chunks: seq<Data>): Outcome<Stream<S>>
    decreases |chunks|
  {
    if chunks == [] then Ok(Went(d, NOTHING)) else
    var r := Receive(env, d, chunks[0]);
    if r.Err? then r else After(r.value.step, ReceiveAll(env, r.value.state, chunks[1..]))
  }

  /** What the bytes mean, however they arrive: put all of them behind what is buffered and read strictly, with no limit
      on the buffer. */
  function Meaning<S>(env: Env<S>, d: Stream<S>, data: Data): Outcome<Stream<S>> {
    Drain(env, true, Append(d, data))
  }

  /** Nothing complete is left in the buffer. */
  predicate Waiting<S>(env: Env<S>, d: Stream<S>) { NextLength(env, true, d.core, d.buffer).None? }

  /** Part of a body is buffered, and this reader would cut a line or a record out of it. */
  predicate Misread<S>(env: Env<S>, d: Stream<S>) {
    Waiting(env, d) && NextLength(env, false, d.core, d.buffer).Some?
  }

  /** Reading strictly, what is complete stays complete when more bytes follow. */
  lemma FrameIsStable<S>(env: Env<S>, core: Core<S>, buffer: Data, more: Data)
    requires NextLength(env, true, core, buffer).Some?
    ensures NextLength(env, true, core, buffer + more) == NextLength(env, true, core, buffer)
  {
    if NewlineAt(buffer).Some? { NewlineIsFirst(buffer, more); }
  }

  lemma {:induction false} NewlineIsFirst(buffer: Data, more: Data)
    requires NewlineAt(buffer).Some?
    ensures NewlineAt(buffer + more) == NewlineAt(buffer)
  {
    assert (buffer + more)[1..] == buffer[1..] + more;
    if buffer[0] == NEWLINE {
    } else {
      NewlineIsFirst(buffer[1..], more);
    }
  }

  lemma {:induction false} DrainedIsWaiting<S>(env: Env<S>, d: Stream<S>)
    requires Drain(env, true, d).Ok?
    ensures Waiting(env, Drain(env, true, d).value.state)
    decreases |d.buffer|, if d.core.pendingBody.Some? then 1 else 0
  {
    hide TakeFrame;
    var n := NextLength(env, true, d.core, d.buffer);
    if n.None? {
    } else {
      BodyIsGone(env, d.core, d.buffer[..n.value]);
      DrainedIsWaiting(env, Stream(d.buffer[n.value..], TakeFrame(env, d.core, d.buffer[..n.value]).value.state));
    }
  }

  lemma BodyIsGone<S>(env: Env<S>, core: Core<S>, bytes: Data)
    ensures BodyReady(core, bytes) && TakeFrame(env, core, bytes).Ok?
            ==> TakeFrame(env, core, bytes).value.state.pendingBody.None?
  {
  }

  /** Bytes that follow change nothing about the frames that were complete before. */
  lemma {:induction false} DrainMore<S>(env: Env<S>, d: Stream<S>, more: Data)
    ensures var (r, s) := (Drain(env, true, d), Drain(env, true, Append(d, more)));
            s == if r.Err? then r else After(r.value.step, Drain(env, true, Append(r.value.state, more)))
    decreases |d.buffer|, if d.core.pendingBody.Some? then 1 else 0
  {
    hide TakeFrame;
    var n := NextLength(env, true, d.core, d.buffer);
    if n.None? {
      AfterTwice(NOTHING, NOTHING, Drain(env, true, Append(d, more)));
    } else {
      FrameIsStable(env, d.core, d.buffer, more);
      var k := n.value;
      assert (d.buffer + more)[..k] == d.buffer[..k] && (d.buffer + more)[k..] == d.buffer[k..] + more;
      BodyIsGone(env, d.core, d.buffer[..k]);
      var taken := TakeFrame(env, d.core, d.buffer[..k]);
      if taken.Ok? {
        var rest := Stream(d.buffer[k..], taken.value.state);
        assert Append(d, more).buffer[k..] == Append(rest, more).buffer;
        DrainMore(env, rest, more);
        var r := Drain(env, true, rest);
        if r.Ok? {
          AfterTwice(taken.value.step, r.value.step, Drain(env, true, Append(r.value.state, more)));
        }
      }
    }
  }

  lemma MeaningSplits<S>(env: Env<S>, d: Stream<S>, a: Data, b: Data)
    ensures var r := Meaning(env, d, a);
            && Meaning(env, d, a + b) == (if r.Err? then r else After(r.value.step, Meaning(env, r.value.state, b)))
            && (r.Ok? ==> Waiting(env, r.value.state))
  {
    hide Drain, Waiting;
    DrainMore(env, Append(d, a), b);
    assert Append(Append(d, a), b) == Append(d, a + b) by { assert d.buffer + a + b == d.buffer + (a + b); }
    if Meaning(env, d, a).Ok? { DrainedIsWaiting(env, Append(d, a)); }
  }

  /** This reader cuts the same frames as a strict one, up to where the strict one stops. */
  lemma {:induction false} LooseDrain<S>(env: Env<S>, d: Stream<S>)
    ensures var (r, s) := (Drain(env, true, d), Drain(env, false, d));
            s == if r.Err? then r else After(r.value.step, Drain(env, false, r.value.state))
    decreases |d.buffer|, if d.core.pendingBody.Some? then 1 else 0
  {
    hide TakeFrame;
    var n := NextLength(env, true, d.core, d.buffer);
    if n.None? {
      AfterTwice(NOTHING, NOTHING, Drain(env, false, d));
    } else {
      var k := n.value;
      assert NextLength(env, false, d.core, d.buffer) == n;
      BodyIsGone(env, d.core, d.buffer[..k]);
      var taken := TakeFrame(env, d.core, d.buffer[..k]);
      if taken.Ok? {
        var rest := Stream(d.buffer[k..], taken.value.state);
        LooseDrain(env, rest);
        var r := Drain(env, true, rest);
        if r.Ok? { AfterTwice(taken.value.step, r.value.step, Drain(env, false, r.value.state)); }
      }
    }
  }

  lemma {:induction false} DrainShrinks<S>(env: Env<S>, d: Stream<S>)
    requires Drain(env, false, d).Ok?
    ensures |Drain(env, false, d).value.state.buffer| <= |d.buffer|
    ensures NextLength(env, false, d.core, d.buffer).Some? && !BodyReady(d.core, d.buffer) ==>
              |Drain(env, false, d).value.state.buffer| < |d.buffer|
    ensures NextLength(env, false, d.core, d.buffer).None? ==> Drain(env, false, d) == Ok(Went(d, NOTHING))
    decreases |d.buffer|, if d.core.pendingBody.Some? then 1 else 0
  {
    hide TakeFrame;
    var n := NextLength(env, false, d.core, d.buffer);
    if n.None? {
    } else {
      BodyIsGone(env, d.core, d.buffer[..n.value]);
      DrainShrinks(env, Stream(d.buffer[n.value..], TakeFrame(env, d.core, d.buffer[..n.value]).value.state));
    }
  }

  /** Handed a strictly read stream, this reader agrees unless it misreads the body that is still coming in. */
  lemma DrainAgrees<S>(env: Env<S>, d: Stream<S>)
    requires Drain(env, true, d).Ok?
    ensures Misread(env, Drain(env, true, d).value.state) <==> Drain(env, false, d) != Drain(env, true, d)
  {
    hide TakeFrame;
    LooseDrain(env, d);
    DrainedIsWaiting(env, d);
    var x := Drain(env, true, d).value;
    if Drain(env, false, x.state).Ok? { DrainShrinks(env, x.state); }
    AfterTwice(NOTHING, NOTHING, Drain(env, false, x.state));
    assert x.step.outbound + [] == x.step.outbound && x.step.events + [] == x.step.events;
    WaitingBody(env, x.state);
  }

  lemma WaitingBody<S>(env: Env<S>, d: Stream<S>)
    requires Waiting(env, d)
    ensures !BodyReady(d.core, d.buffer)
    ensures Misread(env, d) ==> NextLength(env, false, d.core, d.buffer).Some?
    ensures NextLength(env, false, d.core, d.buffer).None? ==> Drain(env, false, d) == Ok(Went(d, NOTHING))
  {
  }

  // When splitting does not matter.

  /** The connection after `data`, read strictly. */
  function At<S>(env: Env<S>, d: Stream<S>, data: Data): Stream<S>
    requires Meaning(env, d, data).Ok?
  {
    Meaning(env, d, data).value.state
  }

  lemma PrefixHasMeaning<S>(env: Env<S>, d: Stream<S>, data: Data, n: nat)
    requires Meaning(env, d, data).Ok? && n <= |data|
    ensures Meaning(env, d, data[..n]).Ok?
    ensures Meaning(env, At(env, d, data[..n]), data[n..]).Ok?
    ensures At(env, At(env, d, data[..n]), data[n..]) == At(env, d, data)
    ensures Waiting(env, At(env, d, data[..n]))
  {
    assert data[..n] + data[n..] == data;
    MeaningSplits(env, d, data[..n], data[n..]);
  }

  /** At no point of the stream is a partial body misread, and the next byte always finds room. */
  ghost predicate Clean<S>(env: Env<S>, d: Stream<S>, data: Data)
    requires Meaning(env, d, data).Ok?
  {
    forall n :: 0 <= n <= |data| ==> CleanAt(env, d, data, n)
  }

  ghost predicate CleanAt<S>(env: Env<S>, d: Stream<S>, data: Data, n: nat)
    requires Meaning(env, d, data).Ok? && n <= |data|
  {
    PrefixHasMeaning(env, d, data, n);
    var s := At(env, d, data[..n]);
    !Misread(env, s) && (n < |data| ==> HasRoom(env, s))
  }

  /** A clean stream is clean in both parts. */
  lemma CleanSplits<S>(env: Env<S>, d: Stream<S>, data: Data, k: nat)
    requires Meaning(env, d, data).Ok? && k <= |data| && Clean(env, d, data)
    ensures Meaning(env, d, data[..k]).Ok? && Clean(env, d, data[..k])
    ensures var s := At(env, d, data[..k]); Meaning(env, s, data[k..]).Ok? && Clean(env, s, data[k..])
  {
    hide Drain, Misread, HasRoom, Meaning;
    PrefixHasMeaning(env, d, data, k);
    var s := At(env, d, data[..k]);
    forall n | 0 <= n <= k ensures CleanAt(env, d, data[..k], n) {
      assert data[..k][..n] == data[..n];
      assert CleanAt(env, d, data, n);
    }
    forall n | 0 <= n <= |data| - k ensures CleanAt(env, s, data[k..], n) {
      assert data[..k + n] == data[..k] + data[k..][..n];
      MeaningSplits(env, d, data[..k], data[k..][..n]);
      assert CleanAt(env, d, data, k + n);
    }
  }

  lemma {:induction false} RestIsMeaning<S>(env: Env<S>, d: Stream<S>, data: Data)
    requires Meaning(env, d, data).Ok? && Clean(env, d, data) && Waiting(env, d)
    ensures ReceiveRest(env, d, data) == Meaning(env, d, data)
    decreases |data|
  {
    hide Drain, Misread, InputWindow, NextLength;
    assert CleanAt(env, d, data, 0);
    EmptyMeaning(env, d);
    assert data[..0] == [];
    if data == [] {
    } else {
      assert HasRoom(env, d);
      var take := Min(|data|, InputWindow(env, d).value.1);
      assert CleanAt(env, d, data, take);
      CleanSplits(env, d, data, take);
      PrefixHasMeaning(env, d, data, take);
      DrainAgrees(env, Append(d, data[..take]));
      var s := At(env, d, data[..take]);
      RestIsMeaning(env, s, data[take..]);
      MeaningSplits(env, d, data[..take], data[take..]);
      assert data[..take] + data[take..] == data;
    }
  }

  lemma EmptyMeaning<S>(env: Env<S>, d: Stream<S>)
    requires Waiting(env, d)
    ensures Meaning(env, d, []) == Ok(Went(d, NOTHING))
  {
    assert d.buffer + [] == d.buffer;
  }

  lemma ReceiveIsMeaning<S>(env: Env<S>, d: Stream<S>, data: Data)
    requires Meaning(env, d, data).Ok? && Clean(env, d, data) && Waiting(env, d)
    ensures Receive(env, d, data) == Meaning(env, d, data)
  {
    assert CleanAt(env, d, data, 0);
    assert data[..0] == [];
    EmptyMeaning(env, d);
    WaitingBody(env, d);
    RestIsMeaning(env, d, data);
    AfterTwice(NOTHING, NOTHING, ReceiveRest(env, d, data));
    hide ReceiveRest, Meaning, InputWindow;
  }

  lemma {:induction false} SplitIsMeaning<S>(env: Env<S>, d: Stream<S>, chunks: seq<Data>)
    requires Meaning(env, d, Joined(chunks)).Ok? && Clean(env, d, Joined(chunks)) && Waiting(env, d)
    ensures ReceiveAll(env, d, chunks) == Meaning(env, d, Joined(chunks))
    decreases |chunks|
  {
    hide Receive, Drain, NextLength, Clean;
    EmptyMeaning(env, d);
    if chunks == [] {
    } else {
      var data, k := Joined(chunks), |chunks[0]|;
      assert data[..k] == chunks[0] && data[k..] == Joined(chunks[1..]);
      CleanSplits(env, d, data, k);
      PrefixHasMeaning(env, d, data, k);
      ReceiveIsMeaning(env, d, chunks[0]);
      SplitIsMeaning(env, At(env, d, chunks[0]), chunks[1..]);
      MeaningSplits(env, d, chunks[0], Joined(chunks[1..]));
    }
  }

  /** However the stream is split, every call has the effect the bytes so far mean. */
  ghost predicate SplitsAgree<S>(env: Env<S>, d: Stream<S>, data: Data) {
    forall n, chunks: seq<Data> | 0 <= n <= |data| && Joined(chunks) == data[..n] ::
      ReceiveAll(env, d, chunks) == Meaning(env, d, data[..n])
  }

  lemma TwoCalls<S>(env: Env<S>, d: Stream<S>, a: Data, b: Data)
    ensures Joined([a, b]) == a + b
    ensures var r := Receive(env, d, a);
            ReceiveAll(env, d, [a, b]) == if r.Err? then r else After(r.value.step, Receive(env, r.value.state, b))
  {
    hide Receive;
    assert [a, b][1..] == [b] && [b][1..] == [];
    assert Joined([b]) == b + [] == b;
    var r := Receive(env, d, a);
    if r.Ok? {
      var q := Receive(env, r.value.state, b);
      if q.Ok? {
        assert ReceiveAll(env, q.value.state, []) == Ok(Went(q.value.state, NOTHING));
        assert q.value.step.Plus(NOTHING) == q.value.step by { PlusNothing(q.value.step); }
      }
    }
  }

  lemma PlusNothing(s: Step)
    ensures s.Plus(NOTHING) == s && NOTHING.Plus(s) == s
  {
    assert s.outbound + [] == s.outbound && s.events + [] == s.events;
    assert [] + s.outbound == s.outbound && [] + s.events == s.events;
  }

  lemma AfterIsInjective<T>(s: Step, q: Outcome<T>, r: Outcome<T>)
    requires After(s, q) == After(s, r)
    ensures q == r
  {
    if q.Ok? && r.Ok? {
      var (x, y) := (q.value.step, r.value.step);
      assert (s.outbound + x.outbound)[|s.outbound|..] == x.outbound
        && (s.outbound + y.outbound)[|s.outbound|..] == y.outbound;
      assert (s.events + x.events)[|s.events|..] == x.events && (s.events + y.events)[|s.events|..] == y.events;
    }
  }

  /** One byte that finds room is pushed and read. */
  lemma OneByte<S>(env: Env<S>, d: Stream<S>, b: byte)
    requires Waiting(env, d) && !Misread(env, d)
    ensures !HasRoom(env, d) ==> Receive(env, d, [b]).Err?
    ensures HasRoom(env, d) ==> Receive(env, d, [b]) == Drain(env, false, Append(d, [b]))
  {
    WaitingBody(env, d);
    hide InputWindow, NextLength;
    assert [b][..1] == [b] && [b][1..] == [];
    AfterTwice(NOTHING, NOTHING, ReceiveRest(env, d, [b]));
    var r := Drain(env, false, Append(d, [b]));
    if HasRoom(env, d) && r.Ok? {
      assert ReceiveRest(env, r.value.state, []) == Ok(Went(r.value.state, NOTHING));
      PlusNothing(r.value.step);
    }
  }

  lemma PrefixIsClean<S>(env: Env<S>, d: Stream<S>, data: Data, n: nat)
    requires Meaning(env, d, data).Ok? && n <= |data|
    requires forall m :: 0 <= m < n ==> CleanAt(env, d, data, m)
    requires Meaning(env, d, data[..n]).Ok? && !Misread(env, At(env, d, data[..n]))
    ensures Meaning(env, d, data[..n]).Ok? && Clean(env, d, data[..n])
  {
    hide Drain, Misread, HasRoom, Meaning;
    PrefixHasMeaning(env, d, data, n);
    forall m | 0 <= m <= n ensures CleanAt(env, d, data[..n], m) {
      assert data[..n][..m] == data[..m];
      if m < n { assert CleanAt(env, d, data, m); }
    }
  }

  lemma ByteIsNext<S>(env: Env<S>, d: Stream<S>, data: Data, n: nat)
    requires Meaning(env, d, data).Ok? && 0 < n <= |data|
    ensures data[..n] == data[..n - 1] + [data[n - 1]]
    ensures Meaning(env, d, data[..n - 1]).Ok?
    ensures var s := At(env, d, data[..n - 1]);
            && Waiting(env, s) && Meaning(env, s, [data[n - 1]]).Ok?
            && Meaning(env, d, data[..n])
              == After(Meaning(env, d, data[..n - 1]).value.step, Meaning(env, s, [data[n - 1]]))
  {
    PrefixHasMeaning(env, d, data, n - 1);
    PrefixHasMeaning(env, d, data, n);
    assert data[..n] == data[..n - 1] + [data[n - 1]];
    MeaningSplits(env, d, data[..n - 1], [data[n - 1]]);
  }

  lemma MisreadAtStart<S>(env: Env<S>, d: Stream<S>, data: Data)
    requires Waiting(env, d) && Misread(env, d)
    ensures !SplitsAgree(env, d, data)
  {
    assert Append(d, []) == d by { assert d.buffer + [] == d.buffer; }
    EmptyMeaning(env, d);
    DrainAgrees(env, d);
    hide Drain, NextLength;
    var none: seq<Data> := [[]];
    assert Joined(none) == data[..0] by { assert none[1..] == []; }
    var r := Receive(env, d, []);
    if r.Ok? {
      PlusNothing(r.value.step);
      PlusNothing(Drain(env, false, d).value.step);
      assert ReceiveAll(env, r.value.state, []) == Ok(Went(r.value.state, NOTHING));
    }
    assert ReceiveAll(env, d, none) != Meaning(env, d, data[..0]);
  }

  /** The misread byte ends the second of two chunks. */
  lemma MisreadShows<S>(env: Env<S>, d: Stream<S>, data: Data, n: nat)
    requires Meaning(env, d, data).Ok? && Waiting(env, d) && 0 < n <= |data|
    requires forall m :: 0 <= m < n ==> CleanAt(env, d, data, m)
    requires Meaning(env, d, data[..n]).Ok? && Misread(env, At(env, d, data[..n]))
    ensures !SplitsAgree(env, d, data)
  {
    hide Drain, InputWindow, NextLength, Misread, HasRoom, Receive, ReceiveAll;
    ByteIsNext(env, d, data, n);
    assert CleanAt(env, d, data, n - 1);
    PrefixIsClean(env, d, data, n - 1);
    var (a, b) := (data[..n - 1], [data[n - 1]]);
    var s := At(env, d, a);
    ReceiveIsMeaning(env, d, a);
    OneByte(env, s, data[n - 1]);
    DrainAgrees(env, Append(s, b));
    TwoCalls(env, d, a, b);
    var step := Meaning(env, d, a).value.step;
    if After(step, Receive(env, s, b)) == After(step, Meaning(env, s, b)) {
      AfterIsInjective(step, Receive(env, s, b), Meaning(env, s, b));
    }
    assert Joined([a, b]) == data[..n];
    assert ReceiveAll(env, d, [a, b]) != Meaning(env, d, data[..n]);
  }

  lemma NoRoomShows<S>(env: Env<S>, d: Stream<S>, data: Data, n: nat)
    requires Meaning(env, d, data).Ok? && Waiting(env, d) && n < |data|
    requires Meaning(env, d, data[..n]).Ok? && Clean(env, d, data[..n])
    requires !Misread(env, At(env, d, data[..n])) && !HasRoom(env, At(env, d, data[..n]))
    ensures !SplitsAgree(env, d, data)
  {
    hide Drain, InputWindow, NextLength, Misread, HasRoom, Receive, ReceiveAll;
    ByteIsNext(env, d, data, n + 1);
    var (a, b) := (data[..n], [data[n]]);
    ReceiveIsMeaning(env, d, a);
    OneByte(env, At(env, d, a), data[n]);
    TwoCalls(env, d, a, b);
    assert Joined([a, b]) == data[..n + 1];
    assert ReceiveAll(env, d, [a, b]) != Meaning(env, d, data[..n + 1]);
  }

  /** The least point at which the stream is not clean shows in the split that ends there. */
  lemma UncleanShows<S>(env: Env<S>, d: Stream<S>, data: Data, n: nat)
    requires Meaning(env, d, data).Ok? && Waiting(env, d) && n <= |data|
    requires !CleanAt(env, d, data, n) && forall m :: 0 <= m < n ==> CleanAt(env, d, data, m)
    ensures !SplitsAgree(env, d, data)
  {
    hide Drain, Receive, InputWindow, NextLength, Meaning, SplitsAgree, Misread, HasRoom;
    PrefixHasMeaning(env, d, data, n);
    var s := At(env, d, data[..n]);
    if Misread(env, s) {
      if n == 0 {
        assert data[..0] == [];
        EmptyMeaning(env, d);
        MisreadAtStart(env, d, data);
      } else {
        MisreadShows(env, d, data, n);
      }
    } else {
      PrefixIsClean(env, d, data, n);
      NoRoomShows(env, d, data, n);
    }
  }

  lemma {:induction false} FirstUnclean<S>(env: Env<S>, d: Stream<S>, data: Data, n: nat) returns (m: nat)
    requires Meaning(env, d, data).Ok? && n <= |data| && !CleanAt(env, d, data, n)
    ensures m <= n && !CleanAt(env, d, data, m) && forall i :: 0 <= i < m ==> CleanAt(env, d, data, i)
    decreases n
  {
    m := n;
    if i :| 0 <= i < n && !CleanAt(env, d, data, i) {
      m := FirstUnclean(env, d, data, i);
    }
  }

  lemma PrefixOfClean<S>(env: Env<S>, d: Stream<S>, data: Data, n: nat)
    requires Meaning(env, d, data).Ok? && n <= |data| && Clean(env, d, data)
    ensures Meaning(env, d, data[..n]).Ok? && Clean(env, d, data[..n])
  {
    CleanSplits(env, d, data, n);
  }

  /** Splitting never matters, for any prefix of the stream, exactly when the stream is clean. */
  lemma SplittingMattersUnlessClean<S>(env: Env<S>, d: Stream<S>, data: Data)
    requires Waiting(env, d) && Meaning(env, d, data).Ok?
    ensures SplitsAgree(env, d, data) <==> Clean(env, d, data)
  {
    hide Drain, Receive, ReceiveAll, NextLength, Meaning, CleanAt;
    if Clean(env, d, data) {
      forall n, chunks: seq<Data> | 0 <= n <= |data| && Joined(chunks) == data[..n]
        ensures ReceiveAll(env, d, chunks) == Meaning(env, d, data[..n])
      {
        PrefixOfClean(env, d, data, n);
        SplitIsMeaning(env, d, chunks);
      }
    } else {
      var n :| 0 <= n <= |data| && !CleanAt(env, d, data, n);
      var m := FirstUnclean(env, d, data, n);
      UncleanShows(env, d, data, m);
    }
  }

  // A whole stream that was received.

  /** The body announced last, if any, fits the buffer. */
  predicate Fits<S>(env: Env<S>, d: Stream<S>) {
    d.core.pendingBody.Some? ==> d.core.pendingBody.value.length <= env.maximum
  }

  /** At every point of the stream the announced body fits and its part so far is not misread. */
  ghost predicate Plain<S>(env: Env<S>, d: Stream<S>, data: Data) {
    forall n | 0 <= n <= |data| :: PlainAt(env, d, data, n)
  }

  ghost predicate PlainAt<S>(env: Env<S>, d: Stream<S>, data: Data, n: nat)
    requires n <= |data|
  {
    Meaning(env, d, data[..n]).Ok? ==> Fits(env, At(env, d, data[..n])) && !Misread(env, At(env, d, data[..n]))
  }

  lemma {:induction false} StrictShrinks<S>(env: Env<S>, d: Stream<S>)
    requires Drain(env, true, d).Ok?
    ensures |Drain(env, true, d).value.state.buffer| <= |d.buffer|
    decreases |d.buffer|, if d.core.pendingBody.Some? then 1 else 0
  {
    hide TakeFrame;
    var n := NextLength(env, true, d.core, d.buffer);
    if n.None? {
    } else {
      BodyIsGone(env, d.core, d.buffer[..n.value]);
      StrictShrinks(env, Stream(d.buffer[n.value..], TakeFrame(env, d.core, d.buffer[..n.value]).value.state));
    }
  }

  lemma WaitingHasRoom<S>(env: Env<S>, d: Stream<S>)
    requires Waiting(env, d) && Fits(env, d)
    requires |d.buffer| < env.maximum || d.core.pendingBody.Some? || !LineMode(env, d.core.auth.state)
    ensures HasRoom(env, d)
  {
  }

  /** Outside line mode the window ends with the frame, so nothing is complete before it is full. */
  lemma WindowIsOneFrame<S>(env: Env<S>, d: Stream<S>, c: Data)
    requires d.core.pendingBody.Some? || !LineMode(env, d.core.auth.state)
    requires HasRoom(env, d) && |c| < InputWindow(env, d).value.1
    ensures Waiting(env, Append(d, c)) && HasRoom(env, Append(d, c))
  {
  }

  /** As long as the window is not full, there is room after every byte of it. */
  lemma RoomInWindow<S>(env: Env<S>, d: Stream<S>, c: Data)
    requires Waiting(env, d) && HasRoom(env, d) && |c| < InputWindow(env, d).value.1
    requires Meaning(env, d, c).Ok? && Fits(env, At(env, d, c))
    ensures HasRoom(env, At(env, d, c))
  {
    hide TakeFrame, NextLength;
    if d.core.pendingBody.Some? || !LineMode(env, d.core.auth.state) {
      WindowIsOneFrame(env, d, c);
    } else {
      StrictShrinks(env, Append(d, c));
      DrainedIsWaiting(env, Append(d, c));
      WaitingHasRoom(env, At(env, d, c));
    }
  }

  lemma PlainSplits<S>(env: Env<S>, d: Stream<S>, data: Data, k: nat)
    requires Plain(env, d, data) && k <= |data| && Meaning(env, d, data[..k]).Ok?
    ensures Plain(env, At(env, d, data[..k]), data[k..])
  {
    hide Drain, Misread, Fits, Meaning;
    var s := At(env, d, data[..k]);
    forall n | 0 <= n <= |data| - k ensures PlainAt(env, s, data[k..], n) {
      assert data[..k + n] == data[..k] + data[k..][..n];
      MeaningSplits(env, d, data[..k], data[k..][..n]);
      assert PlainAt(env, d, data, k + n);
    }
  }

  /** A window that was read without error has its meaning. */
  lemma WindowIsRead<S>(env: Env<S>, d: Stream<S>, data: Data, k: nat)
    requires Waiting(env, d) && Plain(env, d, data) && 0 < k <= |data| && HasRoom(env, d)
             && k <= InputWindow(env, d).value.1
    requires Drain(env, false, Append(d, data[..k])).Ok?
    ensures Meaning(env, d, data[..k]) == Drain(env, false, Append(d, data[..k])) && Waiting(env, At(env, d, data[..k]))
    ensures forall n :: 0 <= n < k ==> Meaning(env, d, data[..n]).Ok? && HasRoom(env, At(env, d, data[..n]))
  {
    hide Drain, InputWindow, NextLength, Misread, HasRoom, Fits;
    LooseDrain(env, Append(d, data[..k]));
    DrainAgrees(env, Append(d, data[..k]));
    DrainedIsWaiting(env, Append(d, data[..k]));
    assert PlainAt(env, d, data, k);
    forall n | 0 <= n < k ensures Meaning(env, d, data[..n]).Ok? && HasRoom(env, At(env, d, data[..n])) {
      assert data[..n] == data[..k][..n];
      PrefixHasMeaning(env, d, data[..k], n);
      assert PlainAt(env, d, data, n);
      if n == 0 {
        EmptyMeaning(env, d);
        assert data[..0] == [];
      } else {
        RoomInWindow(env, d, data[..n]);
      }
    }
  }

  lemma {:induction false} ReceivedIsClean<S>(env: Env<S>, d: Stream<S>, data: Data)
    requires Waiting(env, d) && Plain(env, d, data) && ReceiveRest(env, d, data).Ok?
    ensures Meaning(env, d, data).Ok? && Clean(env, d, data)
    decreases |data|
  {
    hide Drain, InputWindow, NextLength, Misread, Fits, Meaning;
    if data == [] {
      EmptyMeaning(env, d);
      assert PlainAt(env, d, data, 0);
      assert CleanAt(env, d, data, 0);
    } else {
      var take := Min(|data|, InputWindow(env, d).value.1);
      WindowIsRead(env, d, data, take);
      var s, rest := At(env, d, data[..take]), data[take..];
      PlainSplits(env, d, data, take);
      ReceivedIsClean(env, s, rest);
      MeaningSplits(env, d, data[..take], rest);
      assert data[..take] + rest == data;
      forall n | 0 <= n <= |data| ensures CleanAt(env, d, data, n) {
        PrefixHasMeaning(env, d, data, n);
        assert PlainAt(env, d, data, n);
        if take <= n < |data| {
          assert data[..n] == data[..take] + rest[..n - take];
          MeaningSplits(env, d, data[..take], rest[..n - take]);
          assert CleanAt(env, s, rest, n - take);
        }
      }
    }
  }

  /** If one call with the whole stream succeeds, no announced body is larger than the buffer, and no partial body is
      misread, then every way of splitting the stream succeeds with the same events, the same outbound bytes and the
      same final state. */
  lemma SplittingDoesNotMatter<S>(env: Env<S>, d: Stream<S>, data: Data, chunks: seq<Data>)
    requires Waiting(env, d) && Plain(env, d, data) && Receive(env, d, data).Ok? && Joined(chunks) == data
    ensures ReceiveAll(env, d, chunks) == Receive(env, d, data)
  {
    hide InputWindow, NextLength, Meaning, Fits;
    EmptyMeaning(env, d);
    assert data[..0] == [];
    assert PlainAt(env, d, data, 0);
    WaitingBody(env, d);
    AfterTwice(NOTHING, NOTHING, ReceiveRest(env, d, data));
    hide Drain, Misread;
    ReceivedIsClean(env, d, data);
    ReceiveIsMeaning(env, d, data);
    SplitIsMeaning(env, d, chunks);
  }

  // When a body is misread.

  lemma {:induction false} NewlineIsFound(buffer: Data)
    ensures NewlineAt(buffer).Some? <==> NEWLINE in buffer
  {
    if buffer == [] {
    } else {
      NewlineIsFound(buffer[1..]);
      assert buffer == [buffer[0]] + buffer[1..];
    }
  }
}
