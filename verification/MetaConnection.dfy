/** The objects behind a meta connection: the stream decoder, the authentication and the driver that ties them together.
    After an error a connection is dropped, so nothing is promised about its state then. */
module MetaConnection {
  import opened Basics
  import opened Messages
  import opened Framing
  import Names

  class MetaStreamDecoder {
    var buffer: Data
    var pendingBody: Option<BodyRequest>

    constructor ()
      ensures buffer == [] && pendingBody == None
    {
      buffer, pendingBody := [], None;
    }

    method PushLimited(data: Data, maximum: nat) returns (r: Result<(), Error>)
      modifies this`buffer
      ensures r == (if |old(buffer)| + |data| > maximum then Err(InputBufferFull(maximum, |old(buffer)| + |data|))
                else Ok(()))
      ensures buffer == if r.Ok? then old(buffer) + data else old(buffer)
    {
      if |buffer| + |data| > maximum {
        return Err(InputBufferFull(maximum, |buffer| + |data|));
      }
      buffer := buffer + data;
      r := Ok(());
    }

    method ExpectBody(kind: BodyKind, length: nat)
      modifies this`pendingBody
      ensures pendingBody == Some(BodyRequest(kind, length))
    {
      pendingBody := Some(BodyRequest(kind, length));
    }

    method Take(n: nat) returns (bytes: Data)
      requires n <= |buffer|
      modifies this`buffer
      ensures bytes == old(buffer)[..n] && buffer == old(buffer)[n..]
    {
      bytes, buffer := buffer[..n], buffer[n..];
    }

    method NextBodyFrame() returns (frame: Option<Frame>)
      modifies this
      ensures var (b, p) := (old(buffer), old(pendingBody));
              if p.Some? && |b| >= p.value.length
              then frame == Some(Body(p.value.kind, b[..p.value.length])) && buffer == b[p.value.length..]
                && pendingBody == None
              else frame == None && buffer == b && pendingBody == p
    {
      if pendingBody.None? || |buffer| < pendingBody.value.length {
        return None;
      }
      var pending := pendingBody.value;
      pendingBody := None;
      var bytes := Take(pending.length);
      frame := Some(Body(pending.kind, bytes));
    }

    method FindNewline() returns (position: Option<nat>)
      ensures position == NewlineAt(buffer)
    {
      var i := 0;
      while i < |buffer|
        invariant i <= |buffer|
        invariant NewlineAt(buffer) == var rest := NewlineAt(buffer[i..]); if rest.Some? then Some(rest.value + i)
                    else None
      {
        if buffer[i] == NEWLINE {
          return Some(i);
        }
        assert buffer[i..][1..] == buffer[i + 1..];
        i := i + 1;
      }
      position := None;
    }

    method NextPlaintextFrame(utf8: Data -> Option<string>) returns (r: Result<Option<Frame>, Error>)
      modifies this
      ensures var (b, p) := (old(buffer), old(pendingBody));
              if p.Some? && |b| >= p.value.length
              then r == Ok(Some(Body(p.value.kind, b[..p.value.length]))) && buffer == b[p.value.length..]
                && pendingBody == None
              else pendingBody == p && if NewlineAt(b).Some?
              then NewlineAt(b).value < |b| && buffer == b[NewlineAt(b).value + 1..]
                   && r == var text := utf8(Trimmed(b[..NewlineAt(b).value + 1])); if text.None? then Err(InvalidUtf8)
                     else Ok(Some(Line(text.value)))
              else r == Ok(None) && buffer == b
    {
      var body := NextBodyFrame();
      if body.Some? {
        return Ok(body);
      }
      var position := FindNewline();
      if position.None? {
        return Ok(None);
      }
      NewlineIsThere(buffer);
      var line := Take(position.value + 1);
      var text := utf8(Trimmed(line));
      if text.None? {
        return Err(InvalidUtf8);
      }
      r := Ok(Some(Line(text.value)));
    }

    method NextSptpsFrame(encrypted: bool) returns (frame: Option<Frame>)
      modifies this
      ensures var (b, p) := (old(buffer), old(pendingBody));
              if p.Some? && |b| >= p.value.length
              then frame == Some(Body(p.value.kind, b[..p.value.length])) && buffer == b[p.value.length..]
                && pendingBody == None
              else pendingBody == p && if |b| >= 2 && |b| >= RecordLength(b, encrypted)
              then frame == Some(SptpsRecord(b[..RecordLength(b, encrypted)]))
                && buffer == b[RecordLength(b, encrypted)..]
              else frame == None && buffer == b
    {
      frame := NextBodyFrame();
      if frame.Some? || |buffer| < 2 || |buffer| < RecordLength(buffer, encrypted) {
        return;
      }
      var record := Take(RecordLength(buffer, encrypted));
      frame := Some(SptpsRecord(record));
    }
  }

  class MetaConnectionAuth<S> {
    const env: Env<S>
    var peer: Option<string>
    var session: Option<S>
    var state: AuthState

    ghost function View(): AuthView<S>
      reads this
    {
      AuthView(peer, session, state)
    }

    constructor (settings: Env<S>)
      ensures env == settings && View() == AuthView(None, None, ExpectId)
    {
      env, peer, session, state := settings, None, None, ExpectId;
    }

    method ReceiveMetaMessage(m: MetaMessage) returns (r: Result<AuthStep, AuthError>)
      modifies this
      ensures r.Ok? ==> ReceiveMessage(env, old(View()), m) == Ok((View(), r.value))
      ensures r.Err? ==> ReceiveMessage(env, old(View()), m) == Err(r.error)
    {
      match m
      case Id(name, major, minor) => r := AcceptId(name, major, minor);
      case Ack(ack) => r := AcceptAck(ack);
      case _ => r := Err(UnexpectedMessage(state));
    }

    method AcceptId(name: string, major: int, minor: Option<int>) returns (r: Result<AuthStep, AuthError>)
      modifies this
      ensures r.Ok? ==> ReceiveId(env, old(View()), name, major, minor) == Ok((View(), r.value))
      ensures r.Err? ==> ReceiveId(env, old(View()), name, major, minor) == Err(r.error)
    {
      if state != ExpectId {
        return Err(UnexpectedMessage(state));
      }
      if !Names.CheckId(name) {
        return Err(InvalidPeerName(name));
      }
      if name == env.myself {
        return Err(SelfConnection(name));
      }
      if major != PROT_MAJOR {
        return Err(IncompatibleProtocol(major));
      }
      peer := Some(name);
      if env.bypassSecurity {
        state := ExpectAck;
        return Ok(AuthStep([], true, []));
      }
      if minor.None? || minor.value < 2 {
        return Err(UnsupportedLegacyProtocol(if minor.None? then 0 else minor.value));
      }
      var started := if env.outgoing then env.startTcp(env.myself, name) else env.startTcp(name, env.myself);
      session := Some(started.session);
      state := Handshake;
      r := Ok(AuthStep(started.outbound, false, []));
    }

    method AcceptAck(ack: AckMessage) returns (r: Result<AuthStep, AuthError>)
      modifies this
      ensures r.Ok? ==> ReceiveAck(env, old(View()), ack) == Ok((View(), r.value))
      ensures r.Err? ==> ReceiveAck(env, old(View()), ack) == Err(r.error)
    {
      if state != ExpectAck {
        return Err(UnexpectedMessage(state));
      }
      if !ack.Connection? {
        return Err(UnexpectedAckShape);
      }
      if peer.None? {
        return Err(MissingPeer);
      }
      state := Activated;
      r := Ok(AuthStep([], false,
        [ConnectionActivated(peer.value, ack.port, HalfTowardsZero(env.localWeight + ack.weight),
                                                       env.negotiate(env.localOptions, ack.options))]));
    }

    method ReceiveSptpsRecord(record: Data) returns (r: Result<AuthStep, AuthError>)
      modifies this
      ensures r.Ok? ==> ReceiveRecord(env, old(View()), record) == Ok((View(), r.value))
      ensures r.Err? ==> ReceiveRecord(env, old(View()), record) == Err(r.error)
    {
      if state == ExpectId {
        return Err(UnexpectedRawRecord(state));
      }
      if peer.None? {
        return Err(MissingPeer);
      }
      if session.None? {
        return Err(MissingSession);
      }
      var received := env.receive(session.value, record);
      if received.Err? {
        return Err(SptpsFailed(received.error));
      }
      session := Some(received.value.session);
      var completed, first := HandshakeComplete in received.value.events, false;
      var events: seq<AuthEvent> := [];
      if completed {
        events := [SptpsHandshakeComplete(peer.value)];
        if state == Handshake {
          first, state := true, ExpectAck;
        }
      }
      var told := received.value.events;
      ghost var before := events;
      for i := 0 to |told|
        invariant events == before + ApplicationRecords(told[..i])
      {
        assert told[..i + 1][..i] == told[..i];
        if told[i].Application? {
          events := events + [ApplicationRecord(told[i].recordType, told[i].payload)];
        }
      }
      assert told[..|told|] == told;
      r := Ok(AuthStep(received.value.outbound, first, events));
    }

    method SendApplication(payload: Data) returns (r: Result<Data, AuthError>)
      modifies this`session
      ensures old(session).None? ==> r == Err(MissingSession)
      ensures old(session).Some? ==> var sent := env.send(old(session).value, SPTPS_META_RECORD, payload);
                if sent.Ok? then r == Ok(sent.value.1) && session == Some(sent.value.0)
                else r == Err(SptpsFailed(sent.error))
    {
      if session.None? {
        return Err(MissingSession);
      }
      var sent := env.send(session.value, SPTPS_META_RECORD, payload);
      if sent.Err? {
        return Err(SptpsFailed(sent.error));
      }
      session := Some(sent.value.0);
      r := Ok(sent.value.1);
    }
  }

  class MetaConnectionDriver<S> {
    const env: Env<S>
    const auth: MetaConnectionAuth<S>
    const decoder: MetaStreamDecoder
    var pendingTcpPacket: Option<nat>

    ghost predicate Valid() { auth.env == env }

    ghost function CoreView(): Core<S>
      reads this, auth, decoder
    {
      Core(auth.View(), decoder.pendingBody, pendingTcpPacket)
    }

    ghost function View(): Stream<S>
      reads this, auth, decoder
    {
      Stream(decoder.buffer, CoreView())
    }

    /** What a call owes: the state and the step that the specification gives, or its error. */
    ghost predicate Did(expected: Outcome<Core<S>>, r: Result<Step, Error>)
      reads this, auth, decoder
    {
      if r.Ok? then expected == Ok(Went(CoreView(), r.value)) else expected == Err(r.error)
    }

    constructor (settings: Env<S>)
      ensures Valid() && fresh(auth) && fresh(decoder) && env == settings
      ensures View() == Stream([], Core(AuthView(None, None, ExpectId), None, None))
    {
      env, pendingTcpPacket := settings, None;
      auth := new MetaConnectionAuth<S>(settings);
      decoder := new MetaStreamDecoder();
    }

    method Acknowledge() returns (r: Result<Step, Error>)
      requires Valid()
      modifies this, auth, decoder
      ensures Valid() && decoder.buffer == old(decoder.buffer) && Did(SendAck(env, old(CoreView())), r)
    {
      if UsesPlaintext(env, auth.state) {
        return Ok(Step([env.ackLine], []));
      }
      var sent := auth.SendApplication(env.ackLine);
      if sent.Err? {
        return Err(AuthFailed(sent.error));
      }
      r := Ok(Step([sent.value], []));
    }

    method ApplyStep(a: AuthStep) returns (r: Result<Step, Error>)
      requires Valid()
      modifies this, auth, decoder
      ensures Valid() && decoder.buffer == old(decoder.buffer) && Did(ApplyAuthStep(env, old(CoreView()), a), r)
      decreases CountApplications(a.events), 3, 0
    {
      hide SendAck, HandleMetaLine, HandleApplication;
      var step := Step(a.rawOutbound, []);
      ghost var core0 := CoreView();
      if a.sendAck {
        var sent := Acknowledge();
        if sent.Err? {
          return sent;
        }
        step := step.Plus(sent.value);
      }
      PlusNothing(Step(a.rawOutbound, []));
      ghost var start, first := CoreView(), step;
      ghost var expected := ApplyAuthStep(env, core0, a);
      assert expected == After(first, ApplyEvents(env, start, a.events));
      var i := 0;
      AfterTwice(first, NOTHING, expected);
      while i < |a.events|
        invariant 0 <= i <= |a.events| && Valid() && decoder.buffer == old(decoder.buffer)
        invariant CountApplications(a.events[i..]) <= CountApplications(a.events)
        invariant expected == After(step, ApplyEvents(env, CoreView(), a.events[i..]))
      {
        ghost var core, rest := CoreView(), a.events[i..];
        assert rest[0] == a.events[i] && rest[1..] == a.events[i + 1..];
        var event := a.events[i];
        if event.ApplicationRecord? {
          var handled := HandleSptpsApplication(event.recordType, event.payload);
          if handled.Err? {
            return handled;
          }
          AfterTwice(step, handled.value, ApplyEvents(env, CoreView(), rest[1..]));
          step := step.Plus(handled.value);
        } else {
          AfterTwice(step, Step([], [Auth(event)]), ApplyEvents(env, CoreView(), rest[1..]));
          step := step.Plus(Step([], [Auth(event)]));
        }
        i := i + 1;
      }
      assert a.events[i..] == [];
      PlusNothing(step);
      r := Ok(step);
    }

    method HandleSptpsApplication(recordType: nat, payload: Data) returns (r: Result<Step, Error>)
      requires Valid()
      modifies this, auth, decoder
      ensures Valid() && decoder.buffer == old(decoder.buffer)
              && Did(HandleApplication(env, old(CoreView()), recordType, payload), r)
      decreases 0, 5, 0
    {
      hide HandleMetaLine;
      if recordType != SPTPS_META_RECORD {
        return Ok(Step([], [UnknownRecord(recordType, payload)]));
      }
      if pendingTcpPacket.Some? {
        var expected := pendingTcpPacket.value;
        pendingTcpPacket := None;
        if |payload| != expected {
          return Err(PacketLengthMismatch(expected, |payload|));
        }
        return Ok(Step([], [TcpPacketData(payload)]));
      }
      var line := env.utf8(Trimmed(payload));
      if line.None? {
        return Err(InvalidUtf8);
      }
      r := HandleLine(line.value, false);
    }

    method HandleLine(line: string, plaintext: bool) returns (r: Result<Step, Error>)
      requires Valid()
      modifies this, auth, decoder
      ensures Valid() && decoder.buffer == old(decoder.buffer)
              && Did(HandleMetaLine(env, old(CoreView()), line, plaintext), r)
      decreases 0, 4, 0
    {
      hide ApplyAuthStep, ReceiveMessage;
      var parsed := env.parse(line);
      if parsed.Err? {
        return Err(ParseFailed(parsed.error));
      }
      var m := parsed.value;
      var told := Step([], [Message(m)]);
      if auth.state != Activated {
        MessagesHoldNoRecords(env, auth.View(), m);
        var received := auth.ReceiveMetaMessage(m);
        if received.Err? {
          return Err(AuthFailed(received.error));
        }
        var applied := ApplyStep(received.value);
        if applied.Err? {
          return applied;
        }
        return Ok(told.Plus(applied.value));
      }
      match m {
        case TcpPacket(length) =>
          if plaintext {
            decoder.ExpectBody(TcpBody, length);
          } else {
            pendingTcpPacket := Some(length);
          }
        case SptpsTcpPacket(length) => decoder.ExpectBody(SptpsBody, length);
        case _ =>
      }
      r := Ok(told);
    }

    method HandleOneFrame(frame: Frame) returns (r: Result<Step, Error>)
      requires Valid()
      modifies this, auth, decoder
      ensures Valid() && decoder.buffer == old(decoder.buffer) && Did(HandleFrame(env, old(CoreView()), frame), r)
    {
      hide ApplyAuthStep, HandleMetaLine, ReceiveRecord;
      match frame
      case Line(text) => r := HandleLine(text, true);
      case SptpsRecord(record) =>
        var received := auth.ReceiveSptpsRecord(record);
        if received.Err? {
          return Err(AuthFailed(received.error));
        }
        r := ApplyStep(received.value);
      case Body(kind, data) =>
        r := Ok(Step([], [if kind == TcpBody then TcpPacketData(data) else SptpsPacketData(data)]));
    }

    method NextFrame() returns (r: Result<Option<Frame>, Error>)
      requires Valid()
      modifies decoder
      ensures var (d, n) := (old(View()), NextLength(env, false, old(CoreView()), old(decoder.buffer)));
              && (n.None? ==> r == Ok(None) && View() == d)
              && (n.Some? ==>
                    decoder.buffer == d.buffer[n.value..] && Framed(env, d.core, d.buffer[..n.value], r, CoreView()))
    {
      if LineMode(env, auth.state) {
        r := decoder.NextPlaintextFrame(env.utf8);
      } else {
        var frame := decoder.NextSptpsFrame(InEncrypted(env, auth.session));
        r := Ok(frame);
      }
    }

    method DrainAvailableFrames() returns (r: Result<Step, Error>)
      requires Valid()
      modifies this, auth, decoder
      ensures Valid() && DidAll(Drain(env, false, old(View())), r)
    {
      hide NextLength, TakeFrame, HandleFrame;
      var step := NOTHING;
      ghost var expected := Drain(env, false, View());
      AfterTwice(NOTHING, NOTHING, expected);
      while true
        invariant Valid() && expected == After(step, Drain(env, false, View()))
        decreases |decoder.buffer|, if decoder.pendingBody.Some? then 1 else 0
      {
        ghost var d := View();
        ghost var n := NextLength(env, false, d.core, d.buffer);
        var frame := NextFrame();
        if frame.Err? {
          return Err(frame.error);
        }
        if frame.value.None? {
          PlusNothing(step);
          return Ok(step);
        }
        ghost var rest := CoreView();
        var handled := HandleOneFrame(frame.value.value);
        if handled.Err? {
          return handled;
        }
        TakingShrinks(env, d, CoreView(), handled.value);
        AfterTwice(step, handled.value, Drain(env, false, View()));
        step := step.Plus(handled.value);
      }
    }

    ghost predicate DidAll(expected: Outcome<Stream<S>>, r: Result<Step, Error>)
      reads this, auth, decoder
    {
      if r.Ok? then expected == Ok(Went(View(), r.value)) else expected == Err(r.error)
    }

    method NextInputWindow() returns (r: Result<(nat, int), Error>)
      requires Valid()
      ensures r == InputWindow(env, View())
    {
      if decoder.pendingBody.Some? {
        var length := decoder.pendingBody.value.length;
        if length > env.maximum {
          return Err(InputBufferFull(env.maximum, length));
        }
        return Ok((env.maximum, length - |decoder.buffer|));
      }
      if LineMode(env, auth.state) {
        return Ok((env.maximum, env.maximum - |decoder.buffer|));
      }
      if |decoder.buffer| < 2 {
        return Ok((MAX_SPTPS_TCP_RECORD_BUFFER_SIZE, 2 - |decoder.buffer|));
      }
      r := Ok((MAX_SPTPS_TCP_RECORD_BUFFER_SIZE,
        RecordLength(decoder.buffer, InEncrypted(env, auth.session)) - |decoder.buffer|));
    }

    /** The limit on the buffer is never hit: a chunk is cut to the window first. */
    method ReceiveBytes(data: Data) returns (r: Result<Step, Error>)
      requires Valid()
      modifies this, auth, decoder
      ensures Valid() && DidAll(Receive(env, old(View()), data), r)
    {
      hide Drain;
      ghost var expected := Receive(env, View(), data);
      r := DrainAvailableFrames();
      if r.Err? {
        return;
      }
      var step, remaining := r.value, data;
      while remaining != []
        invariant Valid() && expected == After(step, ReceiveRest(env, View(), remaining))
        decreases |remaining|
      {
        ghost var d := View();
        var window := NextInputWindow();
        if window.Err? {
          return Err(window.error);
        }
        var (limit, available) := window.value;
        if available <= 0 {
          return Err(InputBufferFull(limit, |decoder.buffer| + |remaining|));
        }
        var take := if |remaining| <= available then |remaining| else available;
        WindowIsWithinLimit(env, d);
        var pushed := decoder.PushLimited(remaining[..take], limit);
        assert pushed.Ok? && View() == Append(d, remaining[..take]);
        var drained := DrainAvailableFrames();
        if drained.Err? {
          return drained;
        }
        AfterTwice(step, drained.value, ReceiveRest(env, View(), remaining[take..]));
        step, remaining := step.Plus(drained.value), remaining[take..];
      }
      PlusNothing(step);
      r := Ok(step);
    }
  }

  lemma WindowIsWithinLimit<S>(env: Env<S>, d: Stream<S>)
    requires HasRoom(env, d)
    ensures var (limit, available) := InputWindow(env, d).value; |d.buffer| + available <= limit
  {
  }

  /** Handling a frame uses up part of the buffer, or the announcement of an empty body. */
  lemma TakingShrinks<S>(env: Env<S>, d: Stream<S>, core: Core<S>, step: Step)
    requires NextLength(env, false, d.core, d.buffer).Some?
    requires TakeFrame(env, d.core, d.buffer[..NextLength(env, false, d.core, d.buffer).value]) == Ok(Went(core, step))
    ensures NextLength(env, false, d.core, d.buffer).value > 0 || (d.core.pendingBody.Some? && core.pendingBody.None?)
  {
    BodyIsGone(env, d.core, d.buffer[..NextLength(env, false, d.core, d.buffer).value]);
  }

  lemma MessagesHoldNoRecords<S>(env: Env<S>, a: AuthView<S>, m: MetaMessage)
    ensures var r := ReceiveMessage(env, a, m); r.Ok? ==> CountApplications(r.value.1.events) == 0
  {
  }

  /** `bytes` have been cut off as a frame, which leaves `rest` of the connection. */
  ghost predicate Framed<S>(env: Env<S>, core: Core<S>, bytes: Data, frame: Result<Option<Frame>, Error>,
      rest: Core<S>) {
    if frame.Err? then TakeFrame(env, core, bytes) == Err(frame.error)
    else frame.value.Some? && TakeFrame(env, core, bytes) == HandleFrame(env, rest, frame.value.value)
  }
}
