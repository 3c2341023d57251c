/** How a packet is taken for a message: a stream that gives different events when it is cut inside a packet. */
module Misreading {
  import opened Basics
  import opened Messages
  import opened Framing
  import opened Text
  import Wire

  predicate IsAscii(line: Data) { forall i :: 0 <= i < |line| ==> line[i] < 128 }

  function AsciiText(line: Data): string
    requires IsAscii(line)
  {
    seq(|line|, i requires 0 <= i < |line| => line[i] as char)
  }

  /** The connection decodes text and parses messages as the program does. */
  ghost predicate ReadsText<S(!new)>(env: Env<S>, t: Wire.AddressText) {
    && (forall line :: IsAscii(line) ==> env.utf8(line) == Some(AsciiText(line)))
    && (forall text :: Agrees(env.parse(text), Wire.Parse(t, text)))
  }

  /** The same message, or an error on both sides. */
  ghost predicate Agrees<E, F>(r: Result<MetaMessage, E>, s: Result<MetaMessage, F>) {
    r.Ok? == s.Ok? && (r.Ok? ==> r.value == s.value)
  }

  /** An active connection in the clear, with nothing pending and room for the stream below. */
  ghost predicate Relaying<S>(env: Env<S>, core: Core<S>) {
    env.bypassSecurity && env.maximum >= 8 && core.auth.state == Activated && core.pendingBody.None?
  }

  /** Such a connection, with a session that is never asked. */
  function PlaintextRelay(t: Wire.AddressText): Env<()> {
    Env(100, "me", false, true, 0, 0, [],
        (line: Data) => if IsAscii(line) then Some(AsciiText(line)) else None,
        (text: string) => var r := Wire.Parse(t, text); if r.Ok? then Ok(r.value) else Err("not a message"),
        (a: nat, b: nat) => 0, (i: string, r: string) => Received((), [], []),
        (s: (), record: Data) => Ok(Received(s, [], [])), (s: (), recordType: nat, payload: Data) => Ok((s, payload)),
          (s: ()) => false)
  }

  lemma RelayReadsText(t: Wire.AddressText)
    ensures ReadsText(PlaintextRelay(t), t)
    ensures Relaying(PlaintextRelay(t), Core(AuthView(Some("peer"), None, Activated), None, None))
  {
    hide Wire.Parse;
  }

  /** The line "17 3", which announces a packet of three bytes. */
  const ANNOUNCEMENT: Data := [49, 55, 32, 51, 10]
  /** The packet: "8", a newline, and "A". */
  const PACKET: Data := [56, 10, 65]
  const PART: Data := [56, 10]

  const ANNOUNCED := Step([], [Message(TcpPacket(3))])
  const DELIVERED := Step([], [TcpPacketData(PACKET)])
  const PINGED := Step([], [Message(Ping)])

  function Expecting<S>(core: Core<S>): Core<S> { core.(pendingBody := Some(BodyRequest(TcpBody, 3))) }

  lemma LinesParse(t: Wire.AddressText)
    ensures Wire.Parse(t, "17 3") == Ok(TcpPacket(3)) && Wire.Parse(t, "8") == Ok(Ping)
  {
    hide Wire.Parse;
    assert Show(17, 10) == Show(1, 10) + [DigitChar(7)];
    assert ShowInt(17) == "17" && ShowInt(3) == "3" && ShowInt(8) == "8";
    assert Join(["17"] + ["3"]) == "17 3" by { assert (["17"] + ["3"])[1..] == ["3"]; }
    assert Join(["8"] + []) == "8";
    Wire.PrintingReturns(t, TcpPacket(3));
    Wire.PrintingReturns(t, Ping);
  }

  lemma LinesAreText()
    ensures Trimmed(ANNOUNCEMENT) == [49, 55, 32, 51] && AsciiText([49, 55, 32, 51]) == "17 3"
    ensures Trimmed(PART) == [56] && AsciiText([56]) == "8"
  {
  }

  lemma LinesAreRead<S(!new)>(env: Env<S>, t: Wire.AddressText)
    requires ReadsText(env, t)
    ensures env.utf8(Trimmed(ANNOUNCEMENT)) == Some("17 3") && env.utf8(Trimmed(PART)) == Some("8")
    ensures env.parse("17 3") == Ok(TcpPacket(3)) && env.parse("8") == Ok(Ping)
  {
    LinesParse(t);
    LinesAreText();
    hide Wire.Parse, Trimmed, AsciiText;
    assert Agrees(env.parse("17 3"), Wire.Parse(t, "17 3")) && Agrees(env.parse("8"), Wire.Parse(t, "8"));
  }

  /** Once a connection is active, a line is a message, and nothing is answered. */
  lemma LineIsMessage<S>(env: Env<S>, core: Core<S>, line: Data, text: string, m: MetaMessage)
    requires core.auth.state == Activated && env.bypassSecurity && !BodyReady(core, line)
    requires env.utf8(Trimmed(line)) == Some(text) && env.parse(text) == Ok(m)
    ensures TakeFrame(env, core, line) == Ok(Went(Observed(core, m, true), Step([], [Message(m)])))
  {
    hide Trimmed, ApplyAuthStep, ReceiveMessage, Observed;
  }

  /** The three frames, and where they end. */
  lemma Frames<S(!new)>(env: Env<S>, t: Wire.AddressText, core: Core<S>)
    requires ReadsText(env, t) && Relaying(env, core)
    ensures TakeFrame(env, core, ANNOUNCEMENT) == Ok(Went(Expecting(core), ANNOUNCED))
    ensures TakeFrame(env, Expecting(core), PACKET) == Ok(Went(core, DELIVERED))
    ensures TakeFrame(env, Expecting(core), PART) == Ok(Went(Expecting(core), PINGED))
  {
    LinesAreRead(env, t);
    LineIsMessage(env, core, ANNOUNCEMENT, "17 3", TcpPacket(3));
    LineIsMessage(env, Expecting(core), PART, "8", Ping);
    assert core.(pendingBody := None) == core;
    assert HandleFrame(env, core, Body(TcpBody, PACKET)) == Ok(Went(core, DELIVERED));
    hide ReadsText, Trimmed, HandleFrame;
  }

  lemma Ends<S>(env: Env<S>, core: Core<S>)
    requires Relaying(env, core)
    ensures NextLength(env, false, core, ANNOUNCEMENT + PACKET) == NextLength(env, false, core, ANNOUNCEMENT + PART)
              == Some(5)
    ensures NextLength(env, false, Expecting(core), PACKET) == Some(3)
    ensures NextLength(env, false, Expecting(core), PART) == Some(2)
    ensures NextLength(env, false, core, []) == NextLength(env, true, core, []) == None
    ensures NextLength(env, false, Expecting(core), []) == None && NextLength(env, false, Expecting(core), [65]) == None
  {
    assert NewlineAt(ANNOUNCEMENT) == Some(4) by {
      assert ANNOUNCEMENT[1..] == [55, 32, 51, 10] && [55, 32, 51, 10][1..] == [32, 51, 10]
        && [32, 51, 10][1..] == [51, 10]
        && [51, 10][1..] == [10];
      assert NewlineAt([10]) == Some(0) && NewlineAt([51, 10]) == Some(1) && NewlineAt([32, 51, 10]) == Some(2);
    }
    NewlineIsFirst(ANNOUNCEMENT, PACKET);
    NewlineIsFirst(ANNOUNCEMENT, PART);
    assert NewlineAt(PART) == Some(1) by { assert PART[1..] == [10]; }
    assert NewlineAt([65]) == None by { assert [65][1..] == []; }
  }

  /** Two frames are cut, and then none. */
  lemma TwoFrames<S>(env: Env<S>, core: Core<S>, a: Data, b: Data, after: Core<S>, last: Core<S>, x: Step, y: Step)
    requires a != [] && b != []
    requires NextLength(env, false, core, a + b) == Some(|a|) && TakeFrame(env, core, a) == Ok(Went(after, x))
    requires NextLength(env, false, after, b) == Some(|b|) && TakeFrame(env, after, b) == Ok(Went(last, y))
    requires NextLength(env, false, last, []) == None
    ensures Drain(env, false, Stream(a + b, core)) == Ok(Went(Stream([], last), x.Plus(y)))
  {
    hide NextLength, TakeFrame;
    assert (a + b)[..|a|] == a && (a + b)[|a|..] == b && b[..|b|] == b && b[|b|..] == [];
    PlusNothing(y);
    assert Drain(env, false, Stream([], last)) == Ok(Went(Stream([], last), NOTHING));
    assert Drain(env, false, Stream(b, after)) == Ok(Went(Stream([], last), y));
  }

  /** A call on an empty buffer that has room for everything. */
  lemma OneWindow<S>(env: Env<S>, core: Core<S>, data: Data, s: Stream<S>, x: Step)
    requires NextLength(env, false, core, []) == None
    requires data != [] && InputWindow(env, Stream([], core)).Ok?
             && InputWindow(env, Stream([], core)).value.1 >= |data|
    requires Drain(env, false, Stream(data, core)) == Ok(Went(s, x))
    ensures Receive(env, Stream([], core), data) == Ok(Went(s, x))
  {
    hide NextLength, InputWindow;
    var d := Stream([], core);
    assert data[..|data|] == data && data[|data|..] == [];
    assert Append(d, data) == Stream(data, core) by { assert [] + data == data; }
    assert ReceiveRest(env, s, []) == Ok(Went(s, NOTHING));
    PlusNothing(x);
    hide Drain;
    assert Drain(env, false, d) == Ok(Went(d, NOTHING)) by { DrainNothing(env, d); }
    assert ReceiveRest(env, d, data) == Ok(Went(s, x));
  }

  lemma DrainNothing<S>(env: Env<S>, d: Stream<S>)
    requires NextLength(env, false, d.core, d.buffer) == None
    ensures Drain(env, false, d) == Ok(Went(d, NOTHING))
  {
  }

  lemma TwoCalls<S>(env: Env<S>, d: Stream<S>, a: Data, b: Data, e: Stream<S>, f: Stream<S>, x: Step, y: Step)
    requires Receive(env, d, a) == Ok(Went(e, x)) && Receive(env, e, b) == Ok(Went(f, y))
    ensures ReceiveAll(env, d, [a, b]) == Ok(Went(f, x.Plus(y)))
  {
    hide Receive;
    assert [a, b][1..] == [b] && [b][1..] == [];
    PlusNothing(y);
    assert ReceiveAll(env, f, []) == Ok(Went(f, NOTHING));
    assert ReceiveAll(env, e, [b]) == Ok(Went(f, y));
  }

  /** The line "17 3" and its packet of three bytes, "8", newline, "A". In one piece they are an announcement and a
      packet. Cut before the last byte, the reader takes the first two bytes of the packet for the line "8", a ping, and
      then waits for a packet it has already begun to consume. This is so on every such connection of the program. */
  lemma SplittingCanMatter<S(!new)>(env: Env<S>, t: Wire.AddressText, core: Core<S>)
    requires ReadsText(env, t) && Relaying(env, core)
    ensures var d, chunks := Stream([], core), [ANNOUNCEMENT + PART, [65]];
            && Waiting(env, d) && Joined(chunks) == ANNOUNCEMENT + PACKET
            && Receive(env, d, ANNOUNCEMENT + PACKET)
              == Ok(Went(d, Step([], [Message(TcpPacket(3)), TcpPacketData(PACKET)])))
            && ReceiveAll(env, d, chunks)
              == Ok(Went(Stream([65], Expecting(core)), Step([], [Message(TcpPacket(3)), Message(Ping)])))
  {
    Frames(env, t, core);
    Ends(env, core);
    Rooms(env, core);
    Pieces();
    hide ReadsText, NextLength, TakeFrame, InputWindow, Receive, Drain, Relaying, Joined;
    var d, e := Stream([], core), Stream([], Expecting(core));
    TwoFrames(env, core, ANNOUNCEMENT, PACKET, Expecting(core), core, ANNOUNCED, DELIVERED);
    OneWindow(env, core, ANNOUNCEMENT + PACKET, d, ANNOUNCED.Plus(DELIVERED));
    TwoFrames(env, core, ANNOUNCEMENT, PART, Expecting(core), Expecting(core), ANNOUNCED, PINGED);
    OneWindow(env, core, ANNOUNCEMENT + PART, e, ANNOUNCED.Plus(PINGED));
    DrainNothing(env, Stream([65], Expecting(core)));
    OneWindow(env, Expecting(core), [65], Stream([65], Expecting(core)), NOTHING);
    TwoCalls(env, d, ANNOUNCEMENT + PART, [65], e, Stream([65], Expecting(core)), ANNOUNCED.Plus(PINGED), NOTHING);
    PlusNothing(ANNOUNCED.Plus(PINGED));
  }

  lemma Pieces()
    ensures Joined([ANNOUNCEMENT + PART, [65]]) == ANNOUNCEMENT + PACKET
    ensures ANNOUNCED.Plus(DELIVERED) == Step([], [Message(TcpPacket(3)), TcpPacketData(PACKET)])
    ensures ANNOUNCED.Plus(PINGED) == Step([], [Message(TcpPacket(3)), Message(Ping)])
  {
    var chunks: seq<Data> := [ANNOUNCEMENT + PART, [65]];
    assert chunks[1..] == [[65]] && chunks[1..][1..] == [];
    assert Joined(chunks[1..]) == [65] by { assert Joined(chunks[1..][1..]) == [] && [65] + [] == [65]; }
    assert ANNOUNCEMENT + PART + [65] == ANNOUNCEMENT + PACKET;
  }

  lemma Rooms<S>(env: Env<S>, core: Core<S>)
    requires Relaying(env, core)
    ensures InputWindow(env, Stream([], core)).Ok? && InputWindow(env, Stream([], core)).value.1 >= 8
    ensures var w := InputWindow(env, Stream([], Expecting(core))); w.Ok? && w.value.1 == 3
  {
  }
}
