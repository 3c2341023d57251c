/** The replay window of a datagram session: a circular bitmap of the sequence numbers that are still missing. */
module Replay {
  import opened Basics

  datatype Verdict =
    | Accepted
    | FarFuture(seqno: u32, expectedSeqno: u32, distance: nat, count: nat)
    | Replayed(replayed: u32, expected: u32)

  /** A snapshot of a window. */
  datatype Window = Window(windowBytes: nat, expectedSeqno: u32, received: u32, farFuture: u32, late: seq<bv8>) {
    predicate Valid() { |late| == windowBytes }
  }

  function SaturatingAdd(a: u32, b: nat): u32 { Min(a + b, MAX_U32) }

  function Bit(k: nat): bv8
    requires k < 8
  {
    if k == 0 then 1 else if k == 1 then 2 else if k == 2 then 4 else if k == 3 then 8
    else if k == 4 then 16 else if k == 5 then 32 else if k == 6 then 64 else 128
  }

  predicate HasBit(b: bv8, k: nat)
    requires k < 8
  {
    b & Bit(k) != 0
  }

  lemma SetBit(b: bv8, k: nat, j: nat)
    requires k < 8 && j < 8
    ensures HasBit(b | Bit(k), j) <==> j == k || HasBit(b, j)
  {
  }

  lemma ClearBit(b: bv8, k: nat, j: nat)
    requires k < 8 && j < 8
    ensures HasBit(b & !Bit(k), j) <==> j != k && HasBit(b, j)
  {
  }

  function Slot(seqno: nat, windowBytes: nat): nat
    requires windowBytes > 0
    ensures Slot(seqno, windowBytes) < windowBytes
  {
    (seqno / 8) % windowBytes
  }

  predicate IsMarkedLate(late: seq<bv8>, seqno: nat) {
    |late| > 0 && HasBit(late[Slot(seqno, |late|)], seqno % 8)
  }

  function MarkLate(late: seq<bv8>, seqno: nat): (r: seq<bv8>)
    ensures |r| == |late|
  {
    if |late| == 0 then late else late[Slot(seqno, |late|) := late[Slot(seqno, |late|)] | Bit(seqno % 8)]
  }

  function ClearLate(late: seq<bv8>, seqno: nat): (r: seq<bv8>)
    ensures |r| == |late|
  {
    if |late| == 0 then late else late[Slot(seqno, |late|) := late[Slot(seqno, |late|)] & !Bit(seqno % 8)]
  }

  function MarkRange(late: seq<bv8>, from: nat, end: nat): (r: seq<bv8>)
    requires from <= end
    ensures |r| == |late|
    decreases end
  {
    if from == end then late else MarkLate(MarkRange(late, from, end - 1), end - 1)
  }

  function FilledLate(n: nat): seq<bv8> { seq(n, i => 0xff) }

  /** Judges `seqno`, recording the verdict when `update` is set. */
  function Check(w: Window, seqno: u32, update: bool): (Window, Verdict)
    requires w.Valid()
  {
    var bits := 8 * w.windowBytes;
    if bits == 0 || seqno == w.expectedSeqno then (Taken(w, w.late, seqno, update), Accepted)
    else if seqno >= SaturatingAdd(w.expectedSeqno, Min(bits, MAX_U32)) then
      var counted := SaturatingAdd(w.farFuture, 1);
      if w.farFuture < Min(w.windowBytes / 4, MAX_U32) then
        (if update then w.(farFuture := counted) else w,
         FarFuture(seqno, w.expectedSeqno, if seqno < w.expectedSeqno then 0 else seqno - w.expectedSeqno, counted))
      else
        (Taken(w, FilledLate(w.windowBytes), seqno, update), Accepted)
    else if seqno < w.expectedSeqno then
      var truncated := bits % (MAX_U32 + 1);
      if (w.expectedSeqno >= truncated && seqno < w.expectedSeqno - truncated) || !IsMarkedLate(w.late, seqno) then
        (w, Replayed(seqno, w.expectedSeqno))
      else (Taken(w, w.late, seqno, update), Accepted)
    else
      (Taken(w, MarkRange(w.late, w.expectedSeqno, seqno), seqno, update), Accepted)
  }

  /** The window once `seqno` has been accepted with `late` the bits that mark missing numbers. */
  function Taken(w: Window, late: seq<bv8>, seqno: u32, update: bool): Window
    requires w.Valid() && |late| == w.windowBytes
  {
    if !update then w
    else
      var expected := if seqno >= w.expectedSeqno then (seqno + 1) % (MAX_U32 + 1) else w.expectedSeqno;
      Window(w.windowBytes, expected, if expected == 0 then 0 else SaturatingAdd(w.received, 1),
             if w.windowBytes == 0 then w.farFuture else 0, ClearLate(late, seqno))
  }

  function NewWindow(windowBytes: nat): Window {
    Window(windowBytes, 0, 0, 0, seq(windowBytes, i => 0))
  }

  class SptpsReplayWindow {
    const windowBytes: nat
    var expectedSeqno: u32
    var received: u32
    var farFuture: u32
    const late: array<bv8>

    ghost function Snapshot(): Window
      reads this, late
    {
      Window(windowBytes, expectedSeqno, received, farFuture, late[..])
    }

    ghost predicate Valid()
      reads this, late
    {
      Snapshot().Valid()
    }

    constructor (bytes: nat)
      ensures Valid() && fresh(late) && Snapshot() == NewWindow(bytes)
    {
      windowBytes, expectedSeqno, received, farFuture := bytes, 0, 0, 0;
      late := new bv8[bytes](i => 0);
      new;
      assert late[..] == seq(bytes, i => 0);
    }

    method Accept(seqno: u32) returns (r: Verdict)
      requires Valid()
      modifies this, late
      ensures Valid() && (Snapshot(), r) == Check(old(Snapshot()), seqno, true)
    {
      r := Judge(seqno, true);
    }

    /** Judges a number on a copy of the window, leaving this one as it is: the verdict is that of accepting it now. */
    method Verify(seqno: u32) returns (r: Verdict)
      requires Valid()
      ensures r == Check(Snapshot(), seqno, true).1
    {
      var probe := new SptpsReplayWindow(windowBytes);
      probe.expectedSeqno, probe.received, probe.farFuture := expectedSeqno, received, farFuture;
      forall i | 0 <= i < late.Length {
        probe.late[i] := late[i];
      }
      assert probe.Snapshot() == Snapshot();
      VerifyForetells(Snapshot(), seqno);
      r := probe.Judge(seqno, false);
    }

    method Judge(seqno: u32, update: bool) returns (r: Verdict)
      requires Valid()
      modifies this, late
      ensures Valid() && (Snapshot(), r) == Check(old(Snapshot()), seqno, update)
    {
      hide Bit, MarkRange, ClearLate, MarkLate, IsMarkedLate;
      ghost var before := Snapshot();
      var windowBits := 8 * windowBytes;
      if windowBits != 0 && seqno != expectedSeqno {
        var futureCutoff := SaturatingAdd(expectedSeqno, Min(windowBits, MAX_U32));
        if seqno >= futureCutoff {
          var previous := farFuture;
          if update {
            farFuture := SaturatingAdd(farFuture, 1);
          }
          if previous < Min(windowBytes / 4, MAX_U32) {
            return FarFuture(seqno, expectedSeqno, if seqno < expectedSeqno then 0 else seqno - expectedSeqno,
                             if update then farFuture else SaturatingAdd(previous, 1));
          }
          if update {
            Fill();
          }
        } else if seqno < expectedSeqno {
          var truncated := windowBits % (MAX_U32 + 1);
          var outside := expectedSeqno >= truncated && seqno < expectedSeqno - truncated;
          if outside || !IsMarkedLate(late[..], seqno) {
            return Replayed(seqno, expectedSeqno);
          }
        } else if update {
          MarkMissed(expectedSeqno, seqno);
        }
      }
      if !update {
        return Accepted;
      }
      ghost var marked := late[..];
      if windowBits != 0 {
        Clear(seqno);
        farFuture := 0;
      }
      if seqno >= expectedSeqno {
        expectedSeqno := (seqno + 1) % (MAX_U32 + 1);
      }
      if expectedSeqno == 0 {
        received := 0;
      } else {
        received := SaturatingAdd(received, 1);
      }
      ClearNothing(marked, seqno);
      r := Accepted;
      assert Snapshot() == Taken(before, marked, seqno, true);
    }

    method Fill()
      modifies late
      ensures late[..] == FilledLate(late.Length)
    {
      for i := 0 to late.Length
        invariant forall j :: 0 <= j < i ==> late[j] == 0xff
      {
        late[i] := 0xff;
      }
    }

    method MarkMissed(from: nat, to: nat)
      requires from <= to && Valid()
      modifies late
      ensures late[..] == MarkRange(old(late[..]), from, to)
    {
      hide Bit;
      for missed := from to to
        invariant late[..] == MarkRange(old(late[..]), from, missed)
      {
        if windowBytes != 0 {
          var index := Slot(missed, windowBytes);
          late[index] := late[index] | Bit(missed % 8);
        }
      }
    }

    method Clear(seqno: nat)
      requires Valid() && windowBytes != 0
      modifies late
      ensures late[..] == ClearLate(old(late[..]), seqno)
    {
      hide Bit;
      var index := Slot(seqno, windowBytes);
      late[index] := late[index] & !Bit(seqno % 8);
    }
  }

  lemma ClearNothing(late: seq<bv8>, seqno: nat)
    ensures |late| == 0 ==> ClearLate(late, seqno) == late
  {
  }

  // The set of accepted numbers behind the bitmap

  /** The last `8 * windowBytes` numbers below the expected one. */
  ghost predicate InWindow(w: Window, seqno: nat) {
    seqno < w.expectedSeqno && w.expectedSeqno <= seqno + 8 * w.windowBytes
  }

  /** Within the window a number is marked missing exactly when it has not been accepted. */
  ghost predicate Refines(w: Window, accepted: set<nat>) {
    && w.Valid() && w.received == |accepted|
    && (forall s :: s in accepted ==> s < w.expectedSeqno)
    && (forall s: nat {:trigger IsMarkedLate(w.late, s)} ::
          InWindow(w, s) ==> (IsMarkedLate(w.late, s) <==> s !in accepted))
  }

  /** Two numbers less than a window apart never share a bit. */
  lemma SlotsDiffer(a: nat, b: nat, windowBytes: nat)
    requires windowBytes > 0 && a < b < a + 8 * windowBytes
    ensures a % 8 != b % 8 || Slot(a, windowBytes) != Slot(b, windowBytes)
  {
    var x, y := a / 8, b / 8;
    if a % 8 == b % 8 && x % windowBytes == y % windowBytes {
      assert 0 < y - x < windowBytes;
      ModDiffers(x, y, windowBytes);
    }
  }

  lemma ModDiffers(x: nat, y: nat, m: nat)
    requires 0 < y - x < m
    ensures x % m != y % m
  {
    if x % m == y % m {
      var k := y / m - x / m;
      assert x == m * (x / m) + x % m && y == m * (y / m) + y % m;
      assert y - x == m * k;
      Multiple(m, k);
    }
  }

  lemma Multiple(m: int, k: int)
    requires m > 0
    ensures m * k <= 0 || m * k >= m
  {
    if k >= 1 {
      assert m * k == m + m * (k - 1);
    }
  }

  lemma MarkOne(late: seq<bv8>, seqno: nat, s: nat)
    requires |late| > 0
    ensures IsMarkedLate(MarkLate(late, seqno), s)
       <==> IsMarkedLate(late, s) || (s % 8 == seqno % 8 && Slot(s, |late|) == Slot(seqno, |late|))
  {
    SetBit(late[Slot(seqno, |late|)], seqno % 8, s % 8);
  }

  lemma ClearOne(late: seq<bv8>, seqno: nat, s: nat)
    requires |late| > 0
    ensures IsMarkedLate(ClearLate(late, seqno), s)
       <==> IsMarkedLate(late, s) && !(s % 8 == seqno % 8 && Slot(s, |late|) == Slot(seqno, |late|))
  {
    ClearBit(late[Slot(seqno, |late|)], seqno % 8, s % 8);
  }

  lemma {:induction false} MarkMany(late: seq<bv8>, from: nat, end: nat, s: nat)
    requires |late| > 0 && from <= end
    requires end <= s + 8 * |late| && s < end
    ensures IsMarkedLate(MarkRange(late, from, end), s) <==> from <= s || IsMarkedLate(late, s)
    decreases end
  {
    hide IsMarkedLate, MarkLate;
    if end <= from {
    } else {
      MarkOne(MarkRange(late, from, end - 1), end - 1, s);
      if s != end - 1 {
        SlotsDiffer(s, end - 1, |late|);
        MarkMany(late, from, end - 1, s);
      }
    }
  }

  lemma FilledIsMarked(n: nat, s: nat)
    requires n > 0
    ensures IsMarkedLate(FilledLate(n), s)
  {
  }

  lemma {:induction false} CountBelow(accepted: set<nat>, n: nat)
    requires forall s :: s in accepted ==> s < n
    ensures |accepted| <= n
  {
    if n == 0 {
    } else {
      CountBelow(accepted - {n - 1}, n - 1);
      if n - 1 in accepted { assert |accepted| == |accepted - {n - 1}| + 1; }
      else { assert accepted - {n - 1} == accepted; }
    }
  }

  /** The window after accepting a new number keeps refining, whatever marked the numbers skipped on the way. */
  lemma TakenRefines(w: Window, late: seq<bv8>, seqno: u32, accepted: set<nat>)
    requires w.windowBytes > 0 && Refines(w, accepted) && |late| == w.windowBytes && seqno !in accepted
             && seqno < MAX_U32
    requires var next := if seqno >= w.expectedSeqno then seqno + 1 else w.expectedSeqno;
             forall s: nat {:trigger IsMarkedLate(late, s)} :: s < next <= s + 8 * w.windowBytes && s != seqno
               ==> (IsMarkedLate(late, s) <==> s !in accepted)
    requires seqno < w.expectedSeqno ==> InWindow(w, seqno)
    ensures Refines(Taken(w, late, seqno, true), accepted + {seqno})
  {
    var t := Taken(w, late, seqno, true);
    assert |accepted + {seqno}| == |accepted| + 1;
    CountBelow(accepted + {seqno}, t.expectedSeqno);
    hide ClearLate;
    forall s: nat | InWindow(t, s) ensures IsMarkedLate(t.late, s) <==> s !in accepted + {seqno} {
      ClearOne(late, seqno, s);
      if s < seqno { SlotsDiffer(s, seqno, w.windowBytes); }
      if seqno < s { SlotsDiffer(seqno, s, w.windowBytes); }
      assert IsMarkedLate(late, s) || !IsMarkedLate(late, s);
    }
  }

  /** Which numbers the window admits, in terms of the set of those accepted before. */
  ghost predicate Admits(w: Window, accepted: set<nat>, seqno: u32) {
    if seqno < w.expectedSeqno then InWindow(w, seqno) && seqno !in accepted
    else
      || (seqno < w.expectedSeqno + 8 * w.windowBytes && seqno < MAX_U32)
      || seqno == w.expectedSeqno
      || w.farFuture >= w.windowBytes / 4
  }

  /** A usable window: not disabled, and no larger than the sequence numbers it has to tell apart. */
  ghost predicate Usable(w: Window) {
    0 < w.windowBytes && 8 * w.windowBytes <= MAX_U32
  }

  /** Every verdict is the one the set of accepted numbers calls for, and the bitmap goes on refining that set unless
      the very last sequence number has just been accepted, which wraps the window. */
  lemma CheckRefines(w: Window, seqno: u32, accepted: set<nat>)
    requires Usable(w) && Refines(w, accepted)
    ensures Check(w, seqno, true).1 == Accepted <==> Admits(w, accepted, seqno)
    ensures Check(w, seqno, true).1 != Accepted ==> Refines(Check(w, seqno, true).0, accepted)
    ensures Check(w, seqno, true).1 == Accepted ==>
              seqno !in accepted && (Refines(Check(w, seqno, true).0, accepted + {seqno}) <==> seqno < MAX_U32)
  {
    hide IsMarkedLate, MarkRange, ClearLate;
    var (t, verdict) := Check(w, seqno, true);
    if verdict == Accepted {
      if seqno < w.expectedSeqno {
        assert IsMarkedLate(w.late, seqno);
        TakenRefines(w, w.late, seqno, accepted);
      } else if seqno < MAX_U32 {
        if seqno == w.expectedSeqno {
          TakenRefines(w, w.late, seqno, accepted);
        } else if seqno >= SaturatingAdd(w.expectedSeqno, 8 * w.windowBytes) {
          forall s: nat ensures IsMarkedLate(FilledLate(w.windowBytes), s) { FilledIsMarked(w.windowBytes, s); }
          TakenRefines(w, FilledLate(w.windowBytes), seqno, accepted);
        } else {
          var late := MarkRange(w.late, w.expectedSeqno, seqno);
          forall s: nat {:trigger IsMarkedLate(late, s)} | s < seqno && seqno + 1 <= s + 8 * w.windowBytes
            ensures IsMarkedLate(late, s) <==> s !in accepted
          {
            MarkMany(w.late, w.expectedSeqno, seqno, s);
            assert InWindow(w, s) || w.expectedSeqno <= s;
          }
          TakenRefines(w, late, seqno, accepted);
        }
      } else {
        assert seqno in accepted + {seqno} && t.expectedSeqno == 0;
      }
    }
  }

  /** Checking without updating gives the verdict that accepting would give, and changes nothing. */
  lemma VerifyForetells(w: Window, seqno: u32)
    requires w.Valid()
    ensures Check(w, seqno, false).1 == Check(w, seqno, true).1
    ensures Check(w, seqno, false).0 == w
  {
    hide IsMarkedLate, MarkRange, ClearLate;
  }

  lemma CheckKeepsSize(w: Window, seqno: u32)
    requires w.Valid()
    ensures Check(w, seqno, true).0.Valid() && Check(w, seqno, true).0.windowBytes == w.windowBytes
  {
    hide IsMarkedLate;
  }

  /** The window after a run of arrivals, and the verdicts given. */
  function Run(w: Window, seqnos: seq<u32>): (r: (Window, seq<Verdict>))
    requires w.Valid()
    ensures r.0.Valid() && r.0.windowBytes == w.windowBytes && |r.1| == |seqnos|
  {
    if seqnos == [] then (w, [])
    else
      var (v, verdicts) := Run(w, seqnos[..|seqnos| - 1]);
      CheckKeepsSize(v, seqnos[|seqnos| - 1]);
      var (t, verdict) := Check(v, seqnos[|seqnos| - 1], true);
      (t, verdicts + [verdict])
  }

  ghost function AcceptedNumbers(seqnos: seq<u32>, verdicts: seq<Verdict>): set<nat>
    requires |seqnos| == |verdicts|
  {
    set i | 0 <= i < |seqnos| && verdicts[i] == Accepted :: seqnos[i]
  }

  /** No two arrivals with the same number were both accepted. */
  ghost predicate AllDistinct(seqnos: seq<u32>, verdicts: seq<Verdict>)
    requires |seqnos| == |verdicts|
  {
    forall i, j :: 0 <= i < j < |seqnos| && verdicts[i] == Accepted && verdicts[j] == Accepted
      ==> seqnos[i] != seqnos[j]
  }

  /** After any run of arrivals at a new window, the bitmap refines the set of the numbers accepted if and only if the
      last sequence number is not among them. */
  lemma {:induction false} RunRefines(w: Window, seqnos: seq<u32>)
    requires Usable(w) && w == NewWindow(w.windowBytes)
    ensures var (t, verdicts) := Run(w, seqnos);
            && (Refines(t, AcceptedNumbers(seqnos, verdicts)) <==> MAX_U32 !in AcceptedNumbers(seqnos, verdicts))
            && (MAX_U32 !in AcceptedNumbers(seqnos, verdicts) ==> AllDistinct(seqnos, verdicts))
  {
    hide Check, Refines, AllDistinct, AcceptedNumbers;
    if seqnos == [] {
      NothingYet(w);
    } else {
      var front, last := seqnos[..|seqnos| - 1], seqnos[|seqnos| - 1];
      RunRefines(w, front);
      var (v, verdicts) := Run(w, front);
      var (t, verdict) := Check(v, last, true);
      RunExtends(w, front, last);
      assert front + [last] == seqnos;
      hide Run;
      OneMoreNumber(front, verdicts, last, verdict);
      if MAX_U32 !in AcceptedNumbers(seqnos, verdicts + [verdict]) {
        CheckRefines(v, last, AcceptedNumbers(front, verdicts));
        assert AcceptedNumbers(front, verdicts) + {} == AcceptedNumbers(front, verdicts);
        OneMoreIsDistinct(front, verdicts, last, verdict);
      } else {
        LastNumberIsLost(t, AcceptedNumbers(seqnos, verdicts + [verdict]));
      }
    }
  }

  lemma NothingYet(w: Window)
    requires w == NewWindow(w.windowBytes)
    ensures AcceptedNumbers([], []) == {} && Refines(w, {}) && AllDistinct([], [])
  {
  }

  lemma OneMoreIsDistinct(seqnos: seq<u32>, verdicts: seq<Verdict>, last: u32, verdict: Verdict)
    requires |seqnos| == |verdicts| && AllDistinct(seqnos, verdicts)
    requires verdict == Accepted ==> last as nat !in AcceptedNumbers(seqnos, verdicts)
    ensures AllDistinct(seqnos + [last], verdicts + [verdict])
  {
    forall i | 0 <= i < |seqnos| && verdicts[i] == Accepted && verdict == Accepted ensures seqnos[i] != last {
      assert seqnos[i] as nat in AcceptedNumbers(seqnos, verdicts);
    }
  }

  lemma LastNumberIsLost(w: Window, accepted: set<nat>)
    requires MAX_U32 in accepted
    ensures !Refines(w, accepted)
  {
  }

  lemma OneMoreNumber(seqnos: seq<u32>, verdicts: seq<Verdict>, last: u32, verdict: Verdict)
    requires |seqnos| == |verdicts|
    ensures AcceptedNumbers(seqnos + [last], verdicts + [verdict])
         == AcceptedNumbers(seqnos, verdicts) + if verdict == Accepted then {last as nat} else {}
  {
    var all, ends := seqnos + [last], verdicts + [verdict];
    forall i | 0 <= i < |seqnos| && verdicts[i] == Accepted ensures seqnos[i] as nat in AcceptedNumbers(all, ends) {
      assert all[i] == seqnos[i] && ends[i] == verdicts[i];
    }
    assert all[|seqnos|] == last && ends[|seqnos|] == verdict;
  }

  /** Over any run of arrivals in which the last sequence number is not accepted, no number is accepted twice and
      `received` counts the numbers accepted. */
  lemma NothingIsAcceptedTwice(windowBytes: nat, seqnos: seq<u32>)
    requires Usable(NewWindow(windowBytes))
    requires MAX_U32 !in AcceptedNumbers(seqnos, Run(NewWindow(windowBytes), seqnos).1)
    ensures var (t, verdicts) := Run(NewWindow(windowBytes), seqnos);
            t.received == |AcceptedNumbers(seqnos, verdicts)| && AllDistinct(seqnos, verdicts)
  {
    RunRefines(NewWindow(windowBytes), seqnos);
  }

  /** Once the last sequence number has been accepted the window starts over, and number 0 is accepted again whatever
      was accepted before. */
  lemma WrapForgets(w: Window)
    requires w.Valid() && Check(w, MAX_U32, true).1 == Accepted
    ensures var t := Check(w, MAX_U32, true).0;
            && t.Valid() && t.expectedSeqno == 0 && t.received == 0 && Check(t, 0, true).1 == Accepted
  {
    hide IsMarkedLate;
  }

  /** So it goes in a run: with a window of one byte, number 0 is accepted before and after the last number. */
  lemma ZeroIsAcceptedTwice()
    ensures Run(NewWindow(1), [0, MAX_U32, 0]).1 == [Accepted, Accepted, Accepted]
  {
    var w := NewWindow(1);
    var (v, first) := Check(w, 0, true);
    var (t, second) := Check(v, MAX_U32, true);
    var none: seq<u32> := [];
    assert first == Accepted && second == Accepted;
    WrapForgets(v);
    var third := Check(t, 0, true).1;
    hide Check;
    assert Run(w, none) == (w, []);
    RunExtends(w, none, 0);
    RunExtends(w, [0], MAX_U32);
    RunExtends(w, [0, MAX_U32], 0);
    hide Run;
    assert none + [0] == [0] && [0] + [MAX_U32] == [0, MAX_U32] && [0, MAX_U32] + [0] == [0, MAX_U32, 0];
    assert [] + [first] + [second] + [third] == [first, second, third];
  }

  lemma RunExtends(w: Window, seqnos: seq<u32>, last: u32)
    requires w.Valid()
    ensures var (v, verdicts) := Run(w, seqnos);
            var (t, verdict) := Check(v, last, true);
            Run(w, seqnos + [last]) == (t, verdicts + [verdict])
  {
    hide Check;
    assert (seqnos + [last])[..|seqnos|] == seqnos;
  }
}
