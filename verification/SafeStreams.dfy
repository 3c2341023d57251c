/** Which streams may be cut anywhere, in terms of the bytes of their frames. */
module SafeStreams {
  import opened Basics
  import opened Framing

  /** Read as lines or records, these bytes of a body hold nothing complete. */
  predicate HoldsNothing<S>(env: Env<S>, core: Core<S>, part: Data) {
    if LineMode(env, core.auth.state) then NEWLINE !in part
    else |part| >= 2 ==> |part| < RecordLength(part, InEncrypted(env, core.auth.session))
  }

  /** A whole frame: a body fits the buffer and holds nothing complete before its last byte; a line fits the buffer. */
  predicate SafeFrame<S>(env: Env<S>, core: Core<S>, frame: Data) {
    if core.pendingBody.Some? then
      frame == [] || (core.pendingBody.value.length <= env.maximum && HoldsNothing(env, core, frame[..|frame| - 1]))
    else LineMode(env, core.auth.state) ==> |frame| <= env.maximum
  }

  /** The beginning of a frame, at the end of the stream. */
  predicate SafePart<S>(env: Env<S>, core: Core<S>, part: Data) {
    if core.pendingBody.Some? then
      part == [] || (core.pendingBody.value.length <= env.maximum && HoldsNothing(env, core, part))
    else LineMode(env, core.auth.state) ==> |part| <= env.maximum
  }

  /** Every frame of the stream, as a strict reader cuts it. */
  ghost predicate AllSafe<S>(env: Env<S>, d: Stream<S>)
    decreases |d.buffer|, if d.core.pendingBody.Some? then 1 else 0
  {
    var n := NextLength(env, true, d.core, d.buffer);
    if n.None? then SafePart(env, d.core, d.buffer)
    else
      var r := TakeFrame(env, d.core, d.buffer[..n.value]);
      && SafeFrame(env, d.core, d.buffer[..n.value])
      && (r.Ok? ==> AllSafe(env, Stream(d.buffer[n.value..], r.value.state)))
  }

  // One frame.

  /** What is complete with more bytes, but takes none of them, was complete before. */
  lemma FrameIsOld<S>(env: Env<S>, core: Core<S>, buffer: Data, more: Data)
    requires NextLength(env, true, core, buffer + more).Some?
    requires NextLength(env, true, core, buffer + more).value <= |buffer|
    ensures NextLength(env, true, core, buffer).Some?
  {
    var n := NextLength(env, true, core, buffer + more).value;
    if core.pendingBody.None? && LineMode(env, core.auth.state) {
      NewlineIsFound(buffer);
      NewlineIsThere(buffer + more);
      assert NewlineAt(buffer + more) == Some(n - 1);
      NewlineIsHere(buffer + more, n - 1);
      assert (buffer + more)[n - 1] == buffer[n - 1];
    }
  }

  lemma {:induction false} NewlineIsHere(buffer: Data, i: nat)
    requires NewlineAt(buffer) == Some(i)
    ensures i < |buffer| && buffer[i] == NEWLINE
  {
    if i == 0 {
    } else {
      NewlineIsHere(buffer[1..], i - 1);
    }
  }

  /** While a frame is coming in, the stream is what has come in. */
  lemma PartIsWaiting<S>(env: Env<S>, d: Stream<S>, data: Data, m: nat)
    requires m <= |data|
    requires var n := NextLength(env, true, d.core, d.buffer + data); n.None? || |d.buffer| + m < n.value
    ensures Waiting(env, Append(d, data[..m])) && Meaning(env, d, data[..m]) == Ok(Went(Append(d, data[..m]), NOTHING))
  {
    var part := d.buffer + data[..m];
    assert d.buffer + data == part + data[m..];
    if NextLength(env, true, d.core, part).Some? {
      FrameIsStable(env, d.core, part, data[m..]);
    }
  }

  /** What being clean means at a point where part of a frame has come in. */
  lemma PartIsClean<S>(env: Env<S>, e: Stream<S>)
    requires Waiting(env, e)
    ensures Misread(env, e) <==> e.core.pendingBody.Some? && !HoldsNothing(env, e.core, e.buffer)
    ensures HasRoom(env, e) <==>
            if e.core.pendingBody.Some? then e.core.pendingBody.value.length <= env.maximum
            else LineMode(env, e.core.auth.state) ==> |e.buffer| < env.maximum
  {
    NewlineIsFound(e.buffer);
  }

  lemma LessHoldsNothing<S>(env: Env<S>, core: Core<S>, part: Data, m: nat)
    requires m <= |part| && HoldsNothing(env, core, part)
    ensures HoldsNothing(env, core, part[..m])
  {
  }

  /** Wherever a body is cut, its part is not taken for a line or record, exactly when it holds nothing complete before
      its last byte. */
  lemma BodyIsSafe<S>(env: Env<S>, core: Core<S>, body: Data)
    requires core.pendingBody.Some? && core.pendingBody.value.length == |body| && body != []
    ensures (forall k | 0 <= k < |body| :: !Misread(env, Stream(body[..k], core)))
       <==> HoldsNothing(env, core, body[..|body| - 1])
  {
    hide HoldsNothing, Misread, HasRoom;
    var last := body[..|body| - 1];
    forall k | 0 <= k < |body|
      ensures !Misread(env, Stream(body[..k], core)) <==> HoldsNothing(env, core, body[..k])
    {
      PartIsClean(env, Stream(body[..k], core));
    }
    if HoldsNothing(env, core, last) {
      forall k | 0 <= k < |body| ensures !Misread(env, Stream(body[..k], core)) {
        LessHoldsNothing(env, core, last, k);
        assert last[..k] == body[..k];
      }
    }
  }

  /** The points inside one frame that is not complete. */
  lemma PartIsSafe<S>(env: Env<S>, d: Stream<S>, data: Data)
    requires d.buffer == [] || data != []
    requires NextLength(env, true, d.core, d.buffer + data).None?
    ensures Meaning(env, d, data).Ok?
    ensures Clean(env, d, data) <==> SafePart(env, d.core, d.buffer + data)
  {
    hide NextLength, Misread, HasRoom, Meaning, HoldsNothing;
    PartIsWaiting(env, d, data, |data|);
    assert data[..|data|] == data;
    var whole := d.buffer + data;
    forall m | 0 <= m <= |data|
      ensures CleanAt(env, d, data, m) <==> PartlySafe(env, d.core, whole[..|d.buffer| + m], m < |data|)
    {
      PointInFrame(env, d, data, m);
    }
    if SafePart(env, d.core, whole) {
      forall m | 0 <= m <= |data| ensures CleanAt(env, d, data, m) {
        if d.core.pendingBody.Some? && whole != [] { LessHoldsNothing(env, d.core, whole, |d.buffer| + m); }
        NothingIsHeld(env, d.core);
      }
    }
    if Clean(env, d, data) {
      assert CleanAt(env, d, data, |data|);
      assert whole[..|whole|] == whole;
      if data != [] { assert CleanAt(env, d, data, |data| - 1); }
    }
  }

  /** Being clean at one point: nothing is held by the part of a body, and if more follows there is room. */
  predicate PartlySafe<S>(env: Env<S>, core: Core<S>, part: Data, more: bool) {
    && (core.pendingBody.Some? ==> HoldsNothing(env, core, part))
    && (more ==>
          if core.pendingBody.Some? then core.pendingBody.value.length <= env.maximum
          else LineMode(env, core.auth.state) ==> |part| < env.maximum)
  }

  lemma NothingIsHeld<S>(env: Env<S>, core: Core<S>)
    ensures HoldsNothing(env, core, [])
  {
  }

  lemma PointInFrame<S>(env: Env<S>, d: Stream<S>, data: Data, m: nat)
    requires m <= |data| && Meaning(env, d, data).Ok?
    requires var n := NextLength(env, true, d.core, d.buffer + data); n.None? || |d.buffer| + m < n.value
    ensures CleanAt(env, d, data, m) <==> PartlySafe(env, d.core, (d.buffer + data)[..|d.buffer| + m], m < |data|)
  {
    hide NextLength, Misread, HasRoom, Meaning, HoldsNothing;
    PartIsWaiting(env, d, data, m);
    var e := Append(d, data[..m]);
    PartIsClean(env, e);
    assert e.buffer == (d.buffer + data)[..|d.buffer| + m];
  }

  /** The points before the end of a frame that is complete. */
  lemma FrameIsSafe<S>(env: Env<S>, d: Stream<S>, data: Data, n: nat)
    requires Meaning(env, d, data).Ok? && NextLength(env, true, d.core, d.buffer + data) == Some(n) && n > |d.buffer|
    ensures (forall m :: 0 <= m < n - |d.buffer| ==> CleanAt(env, d, data, m))
       <==> SafeFrame(env, d.core, (d.buffer + data)[..n])
  {
    hide NextLength, Misread, HasRoom, Meaning, HoldsNothing;
    var frame, k := (d.buffer + data)[..n], n - |d.buffer|;
    var last := frame[..n - 1];
    forall m | 0 <= m < k
      ensures CleanAt(env, d, data, m) <==> PartlySafe(env, d.core, frame[..|d.buffer| + m], true)
    {
      PointInFrame(env, d, data, m);
      assert (d.buffer + data)[..|d.buffer| + m] == frame[..|d.buffer| + m];
    }
    if SafeFrame(env, d.core, frame) {
      forall m | 0 <= m < k ensures CleanAt(env, d, data, m) {
        if d.core.pendingBody.Some? { LessHoldsNothing(env, d.core, last, |d.buffer| + m); }
        assert last[..|d.buffer| + m] == frame[..|d.buffer| + m];
      }
    }
    if forall m :: 0 <= m < k ==> CleanAt(env, d, data, m) {
      assert CleanAt(env, d, data, k - 1);
    }
  }

  // The whole stream.

  /** Being clean before a point, and from there on. */
  lemma CleanJoins<S>(env: Env<S>, d: Stream<S>, data: Data, k: nat)
    requires Meaning(env, d, data).Ok? && k <= |data|
    ensures Meaning(env, d, data[..k]).Ok? && Meaning(env, At(env, d, data[..k]), data[k..]).Ok?
    ensures Clean(env, d, data) <==>
            (forall m :: 0 <= m < k ==> CleanAt(env, d, data, m)) && Clean(env, At(env, d, data[..k]), data[k..])
  {
    hide Drain, Misread, HasRoom, Meaning;
    PrefixHasMeaning(env, d, data, k);
    var s := At(env, d, data[..k]);
    forall n | 0 <= n <= |data| - k ensures CleanAt(env, s, data[k..], n) <==> CleanAt(env, d, data, k + n) {
      assert data[..k + n] == data[..k] + data[k..][..n];
      MeaningSplits(env, d, data[..k], data[k..][..n]);
    }
    if Clean(env, s, data[k..]) && (forall m :: 0 <= m < k ==> CleanAt(env, d, data, m)) {
      forall n | 0 <= n <= |data| ensures CleanAt(env, d, data, n) {
        if n >= k { assert CleanAt(env, s, data[k..], n - k); }
      }
    }
    if Clean(env, d, data) {
      forall n | 0 <= n <= |data| - k ensures CleanAt(env, s, data[k..], n) { assert CleanAt(env, d, data, k + n); }
    }
  }

  /** A frame has been cut, and an empty body that it announced. */
  lemma AfterFrame<S>(env: Env<S>, core: Core<S>, rest: Data) returns (s: Stream<S>)
    requires Drain(env, true, Stream([], core)).Ok?
    ensures Drain(env, true, Stream([], core)).value.state == s && s.buffer == [] && Waiting(env, s)
    ensures AllSafe(env, Stream(rest, core)) == AllSafe(env, Append(s, rest))
  {
    hide TakeFrame, AllSafe;
    s := Drain(env, true, Stream([], core)).value.state;
    DrainedIsWaiting(env, Stream([], core));
    StrictShrinks(env, Stream([], core));
    assert [] + rest == rest;
    var n := NextLength(env, true, core, []);
    if n.Some? {
      EmptyBody(env, core, rest);
      var r := TakeFrame(env, core, []);
      BodyIsGone(env, core, []);
      assert NextLength(env, true, r.value.state, []).None?;
      assert Drain(env, true, Stream([], r.value.state)) == Ok(Went(Stream([], r.value.state), NOTHING));
    }
  }

  lemma EmptyBody<S>(env: Env<S>, core: Core<S>, rest: Data)
    requires NextLength(env, true, core, []).Some? && TakeFrame(env, core, []).Ok?
    ensures BodyReady(core, []) && NextLength(env, true, core, rest) == Some(0) == NextLength(env, true, core, [])
    ensures AllSafe(env, Stream(rest, core)) == AllSafe(env, Stream(rest, TakeFrame(env, core, []).value.state))
  {
    hide TakeFrame;
    assert rest[..0] == [] && rest[0..] == rest;
  }

  /** A stream is clean exactly when every frame in it is safe. */
  lemma {:induction false} CleanMeansSafe<S>(env: Env<S>, d: Stream<S>, data: Data)
    requires Waiting(env, d) && Meaning(env, d, data).Ok? && (d.buffer == [] || data != [])
    ensures Clean(env, d, data) <==> AllSafe(env, Append(d, data))
    decreases |data|
  {
    hide TakeFrame, Clean, Drain, Misread, HasRoom, SafeFrame, SafePart;
    var whole := d.buffer + data;
    var n := NextLength(env, true, d.core, whole);
    if n.None? {
      PartIsSafe(env, d, data);
    } else {
      if n.value <= |d.buffer| { FrameIsOld(env, d.core, d.buffer, data); }
      var k := n.value - |d.buffer|;
      FrameIsSafe(env, d, data, n.value);
      CleanJoins(env, d, data, k);
      var r := FirstFrame(env, d, data, n.value);
      var s := AfterFrame(env, r.state, data[k..]);
      CleanMeansSafe(env, s, data[k..]);
    }
  }

  /** Reading up to the end of the first frame is taking it. */
  lemma FirstFrame<S>(env: Env<S>, d: Stream<S>, data: Data, n: nat) returns (r: Went<Core<S>>)
    requires NextLength(env, true, d.core, d.buffer + data) == Some(n) && n > |d.buffer|
    requires Meaning(env, d, data).Ok?
    ensures var k := n - |d.buffer|; k <= |data| && (d.buffer + data)[n..] == data[k..]
    ensures TakeFrame(env, d.core, (d.buffer + data)[..n]) == Ok(r)
    ensures Drain(env, true, Stream([], r.state)).Ok? && Meaning(env, d, data[..n - |d.buffer|]).Ok?
    ensures Drain(env, true, Stream([], r.state)).value.state == At(env, d, data[..n - |d.buffer|])
  {
    hide TakeFrame;
    var whole, k := d.buffer + data, n - |d.buffer|;
    var frame := whole[..n];
    assert frame == d.buffer + data[..k] && whole == frame + data[k..];
    PrefixHasMeaning(env, d, data, k);
    r := TakeFrame(env, d.core, frame).value;
    FrameAlone(env, d.core, frame, data[k..]);
    assert frame[..n] == frame && frame[n..] == [];
  }

  lemma FrameAlone<S>(env: Env<S>, core: Core<S>, frame: Data, rest: Data)
    requires NextLength(env, true, core, frame + rest) == Some(|frame|) && frame != []
    ensures NextLength(env, true, core, frame) == Some(|frame|)
  {
    FrameIsOld(env, core, frame, rest);
    FrameIsStable(env, core, frame, rest);
  }

  /** A stream that means something when read strictly can be cut anywhere, at no loss for any prefix of it, if and only
      if in the clear no line is too long for the buffer, and each announced body fits the buffer and, read as lines or
      records, holds nothing complete before its last byte. */
  lemma SplittingNeedsSafeFrames<S>(env: Env<S>, d: Stream<S>, data: Data)
    requires Waiting(env, d) && Meaning(env, d, data).Ok? && (d.buffer == [] || data != [])
    ensures SplitsAgree(env, d, data) <==> AllSafe(env, Append(d, data))
  {
    SplittingMattersUnlessClean(env, d, data);
    CleanMeansSafe(env, d, data);
    hide AllSafe, SplitsAgree, Clean, Meaning, Waiting;
  }
}
