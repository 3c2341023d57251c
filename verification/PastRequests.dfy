/** The cache of requests seen lately: what keeps a flooded message from going round for ever. */
module PastRequests {
  import opened Basics

  const MAX_U64 := 0xffff_ffff_ffff_ffff

  type u64 = x: nat | x <= MAX_U64

  type Entries = map<string, u64>

  /** An entry made at `t` still counts at `now`. */
  predicate Alive(t: u64, retention: u64, now: u64) {
    (if t + retention > MAX_U64 then MAX_U64 else t + retention) > now
  }

  function Aged(entries: Entries, retention: u64, now: u64): Entries {
    map r | r in entries && Alive(entries[r], retention, now) :: entries[r]
  }

  function Marked(entries: Entries, retention: u64, request: string, now: u64): Entries {
    var kept := Aged(entries, retention, now);
    if request in kept then kept else kept[request := now]
  }

  class PastRequestCache {
    const retention: u64
    var entries: Entries

    constructor (seconds: u64)
      ensures retention == seconds && entries == map[]
    {
      retention, entries := seconds, map[];
    }

    method Age(now: u64) returns (dropped: nat)
      modifies this`entries
      ensures entries == Aged(old(entries), retention, now) && dropped == |old(entries)| - |entries|
    {
      var before := entries;
      entries := map r | r in before && Alive(before[r], retention, now) :: before[r];
      FewerKeys(before, entries);
      dropped := |before| - |entries|;
    }

    method MarkSeen(request: string, now: u64) returns (seen: bool)
      modifies this`entries
      ensures entries == Marked(old(entries), retention, request, now)
      ensures seen == (request in Aged(old(entries), retention, now))
    {
      var _ := Age(now);
      if request in entries {
        return true;
      }
      entries := entries[request := now];
      seen := false;
    }
  }

  lemma {:induction false} FewerKeys(a: Entries, b: Entries)
    requires b.Keys <= a.Keys
    ensures |b| <= |a|
    decreases |b|
  {
    if b == map[] {
    } else {
      var k :| k in b;
      assert (b - {k}).Keys == b.Keys - {k} && (a - {k}).Keys == a.Keys - {k};
      FewerKeys(a - {k}, b - {k});
    }
  }

  /** A call with its time. */
  datatype Call = Call(request: string, now: u64)

  function EntriesAfter(retention: u64, calls: seq<Call>, n: nat): Entries
    requires n <= |calls|
  {
    if n == 0 then map[] else Marked(EntriesAfter(retention, calls, n - 1), retention, calls[n - 1].request,
      calls[n - 1].now)
  }

  /** What call `n` answers. */
  predicate Seen(retention: u64, calls: seq<Call>, n: nat)
    requires n < |calls|
  {
    calls[n].request in Aged(EntriesAfter(retention, calls, n), retention, calls[n].now)
  }

  ghost predicate InOrder(calls: seq<Call>) {
    forall i, j :: 0 <= i < j < |calls| ==> calls[i].now <= calls[j].now
  }

  /** Every call that was let through and still counts is an entry. */
  ghost predicate KeepsAll(retention: u64, calls: seq<Call>, n: nat, now: u64)
    requires n <= |calls|
  {
    var entries := EntriesAfter(retention, calls, n);
    forall i :: 0 <= i < n && !Seen(retention, calls, i) && Alive(calls[i].now, retention, now) ==>
      calls[i].request in entries && entries[calls[i].request] == calls[i].now
  }

  /** Call `i` was let through and made the entry of `r`. */
  ghost predicate Made(retention: u64, calls: seq<Call>, i: nat, r: string, t: u64)
    requires i < |calls|
  {
    !Seen(retention, calls, i) && calls[i] == Call(r, t)
  }

  ghost predicate KeepsOnly(retention: u64, calls: seq<Call>, n: nat)
    requires n <= |calls|
  {
    var entries := EntriesAfter(retention, calls, n);
    forall r :: r in entries ==> exists i :: 0 <= i < n && Made(retention, calls, i, r, entries[r])
  }

  lemma NextEntries(retention: u64, calls: seq<Call>, n: nat)
    requires 0 < n <= |calls|
    ensures var (before, entries, last) :=
              (EntriesAfter(retention, calls, n - 1), EntriesAfter(retention, calls, n), calls[n - 1]);
            && (forall r ::
                  r in entries <==> r == last.request || (r in before && Alive(before[r], retention, last.now)))
            && (forall r :: r in before && Alive(before[r], retention, last.now) ==> entries[r] == before[r])
            && (!Seen(retention, calls, n - 1) ==> entries[last.request] == last.now)
            && (Seen(retention, calls, n - 1) <==>
                  last.request in before && Alive(before[last.request], retention, last.now))
  {
    hide Alive;
  }

  lemma StaysAlive(t: u64, retention: u64, earlier: u64, later: u64)
    requires earlier <= later && Alive(t, retention, later)
    ensures Alive(t, retention, earlier)
  {
  }

  lemma {:induction false} AllAreKept(retention: u64, calls: seq<Call>, n: nat, now: u64)
    requires InOrder(calls) && n <= |calls| && (n > 0 ==> calls[n - 1].now <= now)
    ensures KeepsAll(retention, calls, n, now)
  {
    if n == 0 {
    } else {
      hide Alive, Seen, EntriesAfter;
      var last := calls[n - 1];
      AllAreKept(retention, calls, n - 1, last.now);
      NextEntries(retention, calls, n);
      var entries := EntriesAfter(retention, calls, n);
      forall i | 0 <= i < n && !Seen(retention, calls, i) && Alive(calls[i].now, retention, now)
        ensures calls[i].request in entries && entries[calls[i].request] == calls[i].now
      {
        StaysAlive(calls[i].now, retention, last.now, now);
      }
    }
  }

  lemma {:induction false} OnlyCallsAreKept(retention: u64, calls: seq<Call>, n: nat)
    requires n <= |calls|
    ensures KeepsOnly(retention, calls, n)
  {
    if n == 0 {
    } else {
      hide Alive, Seen, EntriesAfter, Made;
      OnlyCallsAreKept(retention, calls, n - 1);
      NextEntries(retention, calls, n);
      var before, entries, last := EntriesAfter(retention, calls, n - 1), EntriesAfter(retention, calls, n),
        calls[n - 1];
      forall r | r in entries ensures exists i :: 0 <= i < n && Made(retention, calls, i, r, entries[r]) {
        if r in before && Alive(before[r], retention, last.now) {
          var i :| 0 <= i < n - 1 && Made(retention, calls, i, r, before[r]);
        } else {
          LastMade(retention, calls, n - 1, r, entries[r]);
        }
      }
    }
  }

  lemma LastMade(retention: u64, calls: seq<Call>, i: nat, r: string, t: u64)
    requires i < |calls| && !Seen(retention, calls, i) && calls[i] == Call(r, t)
    ensures Made(retention, calls, i, r, t)
  {
  }

  /** A request counts as seen exactly when an equal one was let through less than the retention time ago; so of equal
      requests no two are let through within that time. */
  lemma SeenExactlyWhenRecent(retention: u64, calls: seq<Call>, n: nat)
    requires InOrder(calls) && n < |calls|
    ensures Seen(retention, calls, n)
       <==> exists i :: 0 <= i < n && calls[i].request == calls[n].request && !Seen(retention, calls, i)
                        && Alive(calls[i].now, retention, calls[n].now)
  {
    AllAreKept(retention, calls, n, calls[n].now);
    OnlyCallsAreKept(retention, calls, n);
    NextEntries(retention, calls, n + 1);
    hide EntriesAfter, Alive, Seen;
    var entries, r := EntriesAfter(retention, calls, n), calls[n].request;
    if r in entries {
      var i :| 0 <= i < n && Made(retention, calls, i, r, entries[r]);
      assert calls[i].now == entries[r];
    }
  }
}
