/** A connection is activated at most once, so a tunnel server talks to one peer on each, over any run. */
module Privacy {
  import opened Basics
  import opened Names
  import opened Messages
  import opened Framing
  import opened Coordinator
  import opened Subnets

  // Activations in a stream.

  function IsActive<S>(core: Core<S>): nat { if core.auth.state == Activated then 1 else 0 }

  function Activations(events: seq<Framing.Event>): nat {
    if events == [] then 0 else (if IsActivation(events[0]) then 1 else 0) + Activations(events[1..])
  }

  /** The activations among the events that are still to be handed out. */
  function Owed(events: seq<AuthEvent>): nat {
    if events == [] then 0 else (if events[0].ConnectionActivated? then 1 else 0) + Owed(events[1..])
  }

  lemma {:induction false} ActivationsJoin(a: seq<Framing.Event>, b: seq<Framing.Event>)
    ensures Activations(a + b) == Activations(a) + Activations(b)
  {
    if a == [] {
      assert a + b == b;
    } else {
      ActivationsJoin(a[1..], b);
      assert (a + b)[1..] == a[1..] + b;
    }
  }

  lemma {:induction false} OwedJoins(a: seq<AuthEvent>, b: seq<AuthEvent>)
    ensures Owed(a + b) == Owed(a) + Owed(b)
  {
    if a == [] {
      assert a + b == b;
    } else {
      OwedJoins(a[1..], b);
      assert (a + b)[1..] == a[1..] + b;
    }
  }

  /** What has been handed out accounts for whether the connection is active, but for what is owed. */
  ghost predicate Counts<S>(before: Core<S>, r: Outcome<Core<S>>, owed: nat) {
    r.Ok? ==> IsActive(r.value.state) + owed == IsActive(before) + Activations(r.value.step.events)
  }

  lemma OneEvent(e: Framing.Event)
    ensures Activations([e]) == if IsActivation(e) then 1 else 0
  {
    assert [e][1..] == [];
    assert Activations([]) == 0;
  }

  lemma NoEvents()
    ensures Activations(NOTHING.events) == 0
  {
  }

  lemma MessageOwes<S>(env: Env<S>, a: AuthView<S>, m: MetaMessage)
    requires a.state != Activated && ReceiveMessage(env, a, m).Ok?
    ensures var (b, step) := ReceiveMessage(env, a, m).value;
            Owed(step.events) == if b.state == Activated then 1 else 0
  {
    var (b, step) := ReceiveMessage(env, a, m).value;
    if step.events != [] { assert step.events[1..] == []; }
  }

  lemma {:induction false} RecordsOweNothing(events: seq<SessionEvent>)
    ensures Owed(ApplicationRecords(events)) == 0
    decreases |events|
  {
    if events == [] {
    } else {
      RecordsOweNothing(events[..|events| - 1]);
      var e := events[|events| - 1];
      var last: seq<AuthEvent> := if e.Application? then [ApplicationRecord(e.recordType, e.payload)] else [];
      if last != [] { assert last[1..] == []; }
      OwedJoins(ApplicationRecords(events[..|events| - 1]), last);
    }
  }

  lemma RecordOwesNothing<S>(env: Env<S>, a: AuthView<S>, record: Data)
    requires ReceiveRecord(env, a, record).Ok?
    ensures var (b, step) := ReceiveRecord(env, a, record).value;
            Owed(step.events) == 0 && (b.state == Activated <==> a.state == Activated)
  {
    var r := env.receive(a.session.value, record);
    var completed: seq<AuthEvent> :=
      if HandshakeComplete in r.value.events then [SptpsHandshakeComplete(a.peer.value)] else [];
    if completed != [] { assert completed[1..] == []; }
    RecordsOweNothing(r.value.events);
    OwedJoins(completed, ApplicationRecords(r.value.events));
  }

  lemma AckKeepsState<S>(env: Env<S>, core: Core<S>)
    requires SendAck(env, core).Ok?
    ensures IsActive(SendAck(env, core).value.state) == IsActive(core)
    ensures Activations(SendAck(env, core).value.step.events) == 0
  {
  }

  lemma {:induction false} AuthStepCounts<S>(env: Env<S>, core: Core<S>, a: AuthStep)
    ensures Counts(core, ApplyAuthStep(env, core, a), Owed(a.events))
    decreases CountApplications(a.events), 3, 0
  {
    hide SendAck, Owed, ApplyEvents;
    NoEvents();
    if a.sendAck && SendAck(env, core).Ok? { AckKeepsState(env, core); }
    var sent := if a.sendAck then SendAck(env, core) else Ok(Went(core, NOTHING));
    if sent.Ok? {
      EventsCount(env, sent.value.state, a.events);
      var first := Step(a.rawOutbound, []).Plus(sent.value.step);
      assert first.events == sent.value.step.events;
      var rest := ApplyEvents(env, sent.value.state, a.events);
      if rest.Ok? { ActivationsJoin(first.events, rest.value.step.events); }
    }
  }

  lemma {:induction false} EventsCount<S>(env: Env<S>, core: Core<S>, events: seq<AuthEvent>)
    ensures Counts(core, ApplyEvents(env, core, events), Owed(events))
    decreases CountApplications(events), 2, |events|
  {
    hide HandleApplication;
    NoEvents();
    if events == [] {
    } else {
      var e := events[0];
      if e.ApplicationRecord? {
        ApplicationCounts(env, core, e.recordType, e.payload);
      } else {
        OneEvent(Auth(e));
      }
      var r := if e.ApplicationRecord? then HandleApplication(env, core, e.recordType, e.payload)
               else Ok(Went(core, Step([], [Auth(e)])));
      if r.Ok? {
        EventsCount(env, r.value.state, events[1..]);
        var rest := ApplyEvents(env, r.value.state, events[1..]);
        if rest.Ok? { ActivationsJoin(r.value.step.events, rest.value.step.events); }
      }
    }
  }

  lemma {:induction false} ApplicationCounts<S>(env: Env<S>, core: Core<S>, recordType: nat, payload: Data)
    ensures Counts(core, HandleApplication(env, core, recordType, payload), 0)
    decreases 0, 5, 0
  {
    hide HandleMetaLine, Trimmed;
    OneEvent(UnknownRecord(recordType, payload));
    OneEvent(TcpPacketData(payload));
    var line := env.utf8(Trimmed(payload));
    if recordType == SPTPS_META_RECORD && core.pendingTcpPacket.None? && line.Some? {
      LineCounts(env, core, line.value, false);
    }
  }

  lemma {:induction false} LineCounts<S>(env: Env<S>, core: Core<S>, line: string, plaintext: bool)
    ensures Counts(core, HandleMetaLine(env, core, line, plaintext), 0)
    decreases 0, 4, 0
  {
    hide ReceiveMessage, ApplyAuthStep, Owed;
    var parsed := env.parse(line);
    if parsed.Ok? {
      OneEvent(Message(parsed.value));
      if core.auth.state != Activated {
        var r := ReceiveMessage(env, core.auth, parsed.value);
        if r.Ok? {
          MessageOwes(env, core.auth, parsed.value);
          NoApplications(env, core.auth, parsed.value);
          var next := core.(auth := r.value.0);
          AuthStepCounts(env, next, r.value.1);
          var done := ApplyAuthStep(env, next, r.value.1);
          if done.Ok? { ActivationsJoin([Message(parsed.value)], done.value.step.events); }
        }
      }
    }
  }

  lemma NoApplications<S>(env: Env<S>, a: AuthView<S>, m: MetaMessage)
    requires ReceiveMessage(env, a, m).Ok?
    ensures CountApplications(ReceiveMessage(env, a, m).value.1.events) == 0
  {
  }

  lemma FrameCounts<S>(env: Env<S>, core: Core<S>, bytes: Data)
    ensures Counts(core, TakeFrame(env, core, bytes), 0)
  {
    hide HandleMetaLine, ApplyAuthStep, ReceiveRecord, Owed, Trimmed, NewlineAt;
    if BodyReady(core, bytes) {
      OneEvent(TcpPacketData(bytes));
      OneEvent(SptpsPacketData(bytes));
    } else if LineMode(env, core.auth.state) {
      var text := env.utf8(Trimmed(bytes));
      if text.Some? { LineCounts(env, core, text.value, true); }
    } else {
      var r := ReceiveRecord(env, core.auth, bytes);
      if r.Ok? {
        RecordOwesNothing(env, core.auth, bytes);
        AuthStepCounts(env, core.(auth := r.value.0), r.value.1);
      }
    }
  }

  ghost predicate StreamCounts<S>(before: Stream<S>, r: Outcome<Stream<S>>) {
    r.Ok? ==> IsActive(r.value.state.core) == IsActive(before.core) + Activations(r.value.step.events)
  }

  lemma {:induction false} DrainCounts<S>(env: Env<S>, strict: bool, d: Stream<S>)
    ensures StreamCounts(d, Drain(env, strict, d))
    decreases |d.buffer|, if d.core.pendingBody.Some? then 1 else 0
  {
    hide TakeFrame;
    NoEvents();
    var n := NextLength(env, strict, d.core, d.buffer);
    if n.None? {
    } else {
      FrameCounts(env, d.core, d.buffer[..n.value]);
      BodyIsGone(env, d.core, d.buffer[..n.value]);
      var r := TakeFrame(env, d.core, d.buffer[..n.value]);
      if r.Ok? {
        var rest := Stream(d.buffer[n.value..], r.value.state);
        DrainCounts(env, strict, rest);
        var done := Drain(env, strict, rest);
        if done.Ok? { ActivationsJoin(r.value.step.events, done.value.step.events); }
      }
    }
  }

  lemma {:induction false} RestCounts<S>(env: Env<S>, d: Stream<S>, data: Data)
    ensures StreamCounts(d, ReceiveRest(env, d, data))
    decreases |data|
  {
    hide Drain;
    NoEvents();
    if data == [] {
    } else {
      var w := InputWindow(env, d);
      if w.Ok? && w.value.1 > 0 {
        var take := Min(|data|, w.value.1);
        DrainCounts(env, false, Append(d, data[..take]));
        var r := Drain(env, false, Append(d, data[..take]));
        if r.Ok? {
          RestCounts(env, r.value.state, data[take..]);
          var rest := ReceiveRest(env, r.value.state, data[take..]);
          if rest.Ok? { ActivationsJoin(r.value.step.events, rest.value.step.events); }
        }
      }
    }
  }

  lemma ReceiveCounts<S>(env: Env<S>, d: Stream<S>, data: Data)
    ensures StreamCounts(d, Receive(env, d, data))
  {
    hide Drain, ReceiveRest;
    DrainCounts(env, false, d);
    var r := Drain(env, false, d);
    if r.Ok? {
      RestCounts(env, r.value.state, data);
      var rest := ReceiveRest(env, r.value.state, data);
      if rest.Ok? { ActivationsJoin(r.value.step.events, rest.value.step.events); }
    }
  }

  lemma {:induction false} AllCount<S>(env: Env<S>, d: Stream<S>, chunks: seq<Data>)
    ensures StreamCounts(d, ReceiveAll(env, d, chunks))
    decreases |chunks|
  {
    hide Receive;
    NoEvents();
    if chunks == [] {
    } else {
      ReceiveCounts(env, d, chunks[0]);
      var r := Receive(env, d, chunks[0]);
      if r.Ok? {
        AllCount(env, r.value.state, chunks[1..]);
        var rest := ReceiveAll(env, r.value.state, chunks[1..]);
        if rest.Ok? { ActivationsJoin(r.value.step.events, rest.value.step.events); }
      }
    }
  }

  /** Whatever arrives on a connection, in whatever pieces: it is activated at most once, it is active afterwards
      exactly if it was before or has been activated, and a connection that is active is never activated again. */
  lemma ActivatedAtMostOnce<S>(env: Env<S>, d: Stream<S>, chunks: seq<Data>)
    requires ReceiveAll(env, d, chunks).Ok?
    ensures var (active, events) := (d.core.auth.state == Activated, ReceiveAll(env, d, chunks).value.step.events);
            && Activations(events) <= (if active then 0 else 1)
            && (ReceiveAll(env, d, chunks).value.state.core.auth.state == Activated
              <==> active || Activations(events) == 1)
  {
    AllCount(env, d, chunks);
    hide ReceiveAll;
  }

  // A tunnel server over a whole run.

  /** What has been read from connection `k` in the first `n` calls. */
  function EventsOn(calls: seq<Call>, k: nat, n: nat): seq<Framing.Event>
    requires n <= |calls|
  {
    if n == 0 then []
    else EventsOn(calls, k, n - 1) + if calls[n - 1].connection == k then calls[n - 1].events else []
  }

  lemma {:induction false} EventsGrow(calls: seq<Call>, k: nat, i: nat, n: nat)
    requires i <= n <= |calls|
    ensures forall e :: e in EventsOn(calls, k, i) ==> e in EventsOn(calls, k, n)
    decreases n
  {
    if i == n {
    } else {
      EventsGrow(calls, k, i, n - 1);
    }
  }

  ghost predicate OneActivation(events: seq<Framing.Event>) {
    forall e, f :: e in events && f in events && IsActivation(e) && IsActivation(f) ==> e == f
  }

  lemma {:induction false} Counted(events: seq<Framing.Event>, e: Framing.Event)
    requires e in events && IsActivation(e)
    ensures Activations(events) >= 1
  {
    if events[0] == e {
    } else {
      Counted(events[1..], e);
    }
  }

  lemma {:induction false} AtMostOneIsOne(events: seq<Framing.Event>)
    requires Activations(events) <= 1
    ensures OneActivation(events)
  {
    if events == [] {
    } else {
      AtMostOneIsOne(events[1..]);
      forall e | e in events[1..] && IsActivation(e) && IsActivation(events[0]) ensures false {
        Counted(events[1..], e);
      }
      assert events == [events[0]] + events[1..];
    }
  }

  /** The peer a connection is known to have: the one it had, or the one it was activated for. */
  ghost predicate Known(h: Handle, now: Handle, events: seq<Framing.Event>) {
    || now.peer == h.peer
    || exists e :: e in events && IsActivation(e) && now.peer == Some(Name(e.event.peer))
  }

  lemma OneCall(worlds: seq<World>, calls: seq<Call>, outs: seq<NetStep>, k: nat, n: nat)
    requires IsRun(TunnelServer, worlds, calls, outs) && n < |calls| && calls[n].connection == k
    requires k in worlds[0].handles && k in worlds[n].handles
    requires OneActivation(EventsOn(calls, k, |calls|))
    requires Known(worlds[0].handles[k], worlds[n].handles[k], EventsOn(calls, k, n))
    requires worlds[0].handles[k].peer.None? || forall e :: e in EventsOn(calls, k, |calls|) ==> !IsActivation(e)
    ensures k in worlds[n + 1].handles && OnlyTo(outs[n], worlds[n + 1].handles[k])
    ensures Known(worlds[0].handles[k], worlds[n + 1].handles[k], EventsOn(calls, k, n + 1))
  {
    hide HandledAll, EventsOn, OnlyTo;
    assert Serves(TunnelServer, worlds[n], calls[n], worlds[n + 1], outs[n]);
    EventsGrow(calls, k, n, |calls|);
    EventsGrow(calls, k, n + 1, |calls|);
    EventsGrow(calls, k, n, n + 1);
    LastEvents(calls, k, n);
    TunnelServerStaysPrivate(worlds[n].local, worlds[n].handles[k], calls[n].events, worlds[n + 1].local,
      worlds[n + 1].handles[k], outs[n], calls[n].now);
  }

  lemma LastEvents(calls: seq<Call>, k: nat, n: nat)
    requires n < |calls| && calls[n].connection == k
    ensures forall e :: e in calls[n].events ==> e in EventsOn(calls, k, n + 1)
  {
  }

  lemma {:induction false} PeerIsKnown(worlds: seq<World>, calls: seq<Call>, outs: seq<NetStep>, k: nat, n: nat)
    requires IsRun(TunnelServer, worlds, calls, outs) && n <= |calls| && k in worlds[0].handles
    requires OneActivation(EventsOn(calls, k, |calls|))
    requires worlds[0].handles[k].peer.None? || forall e :: e in EventsOn(calls, k, |calls|) ==> !IsActivation(e)
    ensures k in worlds[n].handles && Known(worlds[0].handles[k], worlds[n].handles[k], EventsOn(calls, k, n))
    ensures n > 0 && calls[n - 1].connection == k ==> OnlyTo(outs[n - 1], worlds[n].handles[k])
    decreases n
  {
    hide OnlyTo, HandledAll;
    if n == 0 {
    } else {
      PeerIsKnown(worlds, calls, outs, k, n - 1);
      if calls[n - 1].connection == k {
        OneCall(worlds, calls, outs, k, n - 1);
      } else {
        assert Serves(TunnelServer, worlds[n - 1], calls[n - 1], worlds[n - 1 + 1], outs[n - 1]);
        assert EventsOn(calls, k, n) == EventsOn(calls, k, n - 1);
      }
    }
  }

  /** All that is sent because of connection `k` goes to `peer`. */
  ghost predicate SendsOnlyTo(calls: seq<Call>, outs: seq<NetStep>, k: nat, peer: Name)
    requires |outs| == |calls|
  {
    forall i, s :: 0 <= i < |calls| && calls[i].connection == k && s in outs[i].sends ==> s.target == Peer(peer)
  }

  lemma RunServesOnePeer(worlds: seq<World>, calls: seq<Call>, outs: seq<NetStep>, k: nat) returns (peer: Name)
    requires IsRun(TunnelServer, worlds, calls, outs) && k in worlds[0].handles
    requires OneActivation(EventsOn(calls, k, |calls|))
    requires worlds[0].handles[k].peer.None? || forall e :: e in EventsOn(calls, k, |calls|) ==> !IsActivation(e)
    ensures SendsOnlyTo(calls, outs, k, peer)
  {
    var events, h := EventsOn(calls, k, |calls|), worlds[0].handles[k];
    hide EventsOn, HandledAll, IsRun, OneActivation, Known;
    if e :| e in events && IsActivation(e) {
      peer := Name(e.event.peer);
    } else {
      peer := if h.peer.Some? then h.peer.value else Name("");
    }
    forall i, s | 0 <= i < |calls| && calls[i].connection == k && s in outs[i].sends ensures s.target == Peer(peer) {
      assert calls[i + 1 - 1].connection == k;
      PeerIsKnown(worlds, calls, outs, k, i + 1);
      EventsGrow(calls, k, i + 1, |calls|);
      KnownIsPeer(h, worlds[i + 1].handles[k], EventsOn(calls, k, i + 1), events, peer);
    }
  }

  /** What is known of a connection agrees with its one activation, or with what was known before. */
  lemma KnownIsPeer(h: Handle, now: Handle, before: seq<Framing.Event>, events: seq<Framing.Event>, peer: Name)
    requires Known(h, now, before) && OneActivation(events) && forall e :: e in before ==> e in events
    requires h.peer.None? || forall e :: e in events ==> !IsActivation(e)
    requires (exists e :: e in events && IsActivation(e) && peer == Name(e.event.peer))
             || ((forall e :: e in events ==> !IsActivation(e)) && (h.peer.Some? ==> peer == h.peer.value))
    ensures now.peer.None? || now.peer == Some(peer)
  {
  }

  /** A tunnel server that reads a connection to the end, in any pieces and among any other connections: everything it
      sends on behalf of what it reads there goes to one peer. */
  lemma TunnelServerServesOnePeer<S>(env: Env<S>, d: Stream<S>, chunks: seq<Data>, worlds: seq<World>, calls: seq<Call>,
      outs: seq<NetStep>, k: nat) returns (peer: Name)
    requires IsRun(TunnelServer, worlds, calls, outs) && k in worlds[0].handles
    requires ReceiveAll(env, d, chunks).Ok?
             && EventsOn(calls, k, |calls|) == ReceiveAll(env, d, chunks).value.step.events
    requires d.core.auth.state == Activated || worlds[0].handles[k].peer.None?
    ensures SendsOnlyTo(calls, outs, k, peer)
  {
    var events := EventsOn(calls, k, |calls|);
    ActivatedAtMostOnce(env, d, chunks);
    AtMostOneIsOne(events);
    hide ReceiveAll, IsRun, OneActivation, SendsOnlyTo;
    if d.core.auth.state == Activated {
      forall e | e in events ensures !IsActivation(e) {
        if IsActivation(e) { Counted(events, e); }
      }
    }
    peer := RunServesOnePeer(worlds, calls, outs, k);
  }
}
