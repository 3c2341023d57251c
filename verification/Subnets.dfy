/** Subnets, tinc's order on them, and the table that is kept sorted by it. */
module Subnets {
  import opened Basics
  import opened Names
  import opened Topology

  datatype SubnetKind = Mac(address: seq<byte>) | Ipv4(address: seq<byte>, prefixLen: nat)
    | Ipv6(address: seq<byte>, prefixLen: nat)

  datatype Subnet = Subnet(kind: SubnetKind, weight: int, owner: Option<Name>, expires: Option<int>) {
    function TypeOrder(): nat {
      if kind.Mac? then 0 else if kind.Ipv4? then 1 else 2
    }

    function WithOwner(name: Name): Subnet { this.(owner := Some(name)) }
  }

  datatype Ordering = Less | Equal | Greater

  function CompareInt(a: int, b: int): Ordering {
    if a < b then Less else if a == b then Equal else Greater
  }

  function CompareBytes(a: seq<byte>, b: seq<byte>): Ordering {
    if a == [] && b == [] then Equal
    else if a == [] then Less
    else if b == [] then Greater
    else if a[0] != b[0] then CompareInt(a[0], b[0])
    else CompareBytes(a[1..], b[1..])
  }

  function CompareNames(a: Name, b: Name): Ordering {
    if NameLess(a, b) then Less else if a == b then Equal else Greater
  }

  /** Address, then weight, then owner; the owner does not count when either side has none. */
  function CompareCommon(a: Subnet, b: Subnet): Ordering {
    var bytes := CompareBytes(a.kind.address, b.kind.address);
    if bytes != Equal then bytes
    else
      var weight := CompareInt(a.weight, b.weight);
      if weight != Equal || a.owner.None? || b.owner.None? then weight
      else CompareNames(a.owner.value, b.owner.value)
  }

  /** MAC before IPv4 before IPv6; within an IP family the longer prefix first. */
  function CompareTinc(a: Subnet, b: Subnet): Ordering {
    var types := CompareInt(a.TypeOrder(), b.TypeOrder());
    if types != Equal then types
    else if a.kind.Mac? then CompareCommon(a, b)
    else
      var prefix := CompareInt(b.kind.prefixLen, a.kind.prefixLen);
      if prefix != Equal then prefix else CompareCommon(a, b)
  }

  /** Two subnets whose owners both count, or neither. */
  ghost predicate SameOwnership(a: Subnet, b: Subnet) {
    a.kind == b.kind && a.weight == b.weight ==> (a.owner.None? <==> b.owner.None?)
  }

  lemma {:induction false} CompareBytesFacts(a: seq<byte>, b: seq<byte>, c: seq<byte>)
    ensures CompareBytes(a, b) == Equal <==> a == b
    ensures CompareBytes(a, b) == Less <==> CompareBytes(b, a) == Greater
    ensures CompareBytes(a, b) == Less && CompareBytes(b, c) == Less ==> CompareBytes(a, c) == Less
    decreases |a|
  {
    if a == [] || b == [] {
    } else {
      assert a == [a[0]] + a[1..] && b == [b[0]] + b[1..];
      CompareBytesFacts(a[1..], b[1..], if c == [] then [] else c[1..]);
    }
  }

  lemma CompareNamesFacts(a: Name, b: Name, c: Name)
    ensures CompareNames(a, b) == Equal <==> a == b
    ensures CompareNames(a, b) == Less <==> CompareNames(b, a) == Greater
    ensures CompareNames(a, b) == Less && CompareNames(b, c) == Less ==> CompareNames(a, c) == Less
  {
    NameOrder();
    hide NameLess;
  }

  /** What `Equal` means: the same subnet of the same owner, or one of the two has no owner. */
  lemma CompareEqual(a: Subnet, b: Subnet)
    ensures CompareTinc(a, b) == Equal
       <==> a.kind == b.kind && a.weight == b.weight && (a.owner == b.owner || a.owner.None? || b.owner.None?)
    ensures CompareTinc(a, b) == Less <==> CompareTinc(b, a) == Greater
  {
    CompareBytesFacts(a.kind.address, b.kind.address, []);
    CompareBytesFacts(b.kind.address, a.kind.address, []);
    if a.owner.Some? && b.owner.Some? {
      CompareNamesFacts(a.owner.value, b.owner.value, a.owner.value);
      CompareNamesFacts(b.owner.value, a.owner.value, a.owner.value);
    }
    hide CompareBytes, CompareNames;
  }

  lemma CompareTransitive(a: Subnet, b: Subnet, c: Subnet)
    requires SameOwnership(a, b) && SameOwnership(b, c)
    requires CompareTinc(a, b) != Greater && CompareTinc(b, c) != Greater
    ensures CompareTinc(a, c) != Greater
  {
    CompareBytesFacts(a.kind.address, b.kind.address, c.kind.address);
    CompareBytesFacts(b.kind.address, c.kind.address, a.kind.address);
    CompareBytesFacts(a.kind.address, c.kind.address, []);
    if a.owner.Some? && b.owner.Some? { CompareNamesFacts(a.owner.value, b.owner.value, if c.owner.Some?
      then c.owner.value else a.owner.value); }
    if b.owner.Some? && c.owner.Some? { CompareNamesFacts(b.owner.value, c.owner.value, b.owner.value); }
    if a.owner.Some? && c.owner.Some? { CompareNamesFacts(a.owner.value, c.owner.value, a.owner.value); }
    hide CompareBytes, CompareNames;
  }

  ghost predicate Sorted(s: seq<Subnet>) {
    forall i, j :: 0 <= i < j < |s| ==> CompareTinc(s[i], s[j]) != Greater
  }

  /** Ownerless and owned entries never share address, prefix and weight; otherwise the order is not transitive. */
  ghost predicate ConsistentOwnership(s: seq<Subnet>) {
    forall i, j :: 0 <= i < |s| && 0 <= j < |s| ==> SameOwnership(s[i], s[j])
  }

  /** `x` placed behind every entry that does not compare greater: the step of a stable insertion sort. */
  function Insert(s: seq<Subnet>, x: Subnet): seq<Subnet> {
    if s == [] || CompareTinc(s[|s| - 1], x) != Greater then s + [x]
    else Insert(s[..|s| - 1], x) + [s[|s| - 1]]
  }

  function StableSort(s: seq<Subnet>): seq<Subnet> {
    if s == [] then [] else Insert(StableSort(s[..|s| - 1]), s[|s| - 1])
  }

  lemma {:induction false} SortedStays(s: seq<Subnet>)
    requires Sorted(s)
    ensures StableSort(s) == s
  {
    hide CompareTinc;
    if s == [] {
    } else {
      var t := s[..|s| - 1];
      SortedStays(t);
      assert s == t + [s[|s| - 1]];
    }
  }

  lemma {:induction false} InsertKeeps(s: seq<Subnet>, x: Subnet)
    ensures multiset(Insert(s, x)) == multiset(s) + multiset{x}
    ensures |Insert(s, x)| == |s| + 1
    ensures forall y :: y in Insert(s, x) <==> y == x || y in s
  {
    if s == [] {
    } else {
      assert s == s[..|s| - 1] + [s[|s| - 1]];
      if CompareTinc(s[|s| - 1], x) == Greater { InsertKeeps(s[..|s| - 1], x); }
    }
  }

  lemma AppendSorts(s: seq<Subnet>, x: Subnet)
    requires Sorted(s) && forall i :: 0 <= i < |s| ==> CompareTinc(s[i], x) != Greater
    ensures Sorted(s + [x])
  {
    hide CompareTinc;
  }

  /** Inserting into a sorted table leaves it sorted. */
  lemma {:induction false} InsertSorts(s: seq<Subnet>, x: Subnet)
    requires Sorted(s) && ConsistentOwnership(s) && forall y :: y in s ==> SameOwnership(y, x)
    ensures Sorted(Insert(s, x))
  {
    hide CompareTinc, SameOwnership;
    if s == [] {
    } else {
      var t, last := s[..|s| - 1], s[|s| - 1];
      assert s == t + [last] && last in s;
      assert forall y :: y in t ==> y in s;
      CompareEqual(last, x);
      if CompareTinc(last, x) == Greater {
        InsertSorts(t, x);
        InsertKeeps(t, x);
        var r := Insert(t, x);
        forall i | 0 <= i < |r| ensures CompareTinc(r[i], last) != Greater {
          assert r[i] in r;
          CompareEqual(x, last);
          if r[i] != x {
            var k :| 0 <= k < |t| && t[k] == r[i];
            assert CompareTinc(s[k], s[|s| - 1]) != Greater;
          }
        }
        AppendSorts(r, last);
      } else {
        forall i | 0 <= i < |s| ensures CompareTinc(s[i], x) != Greater {
          if i < |s| - 1 {
            assert s[i] in s && SameOwnership(s[i], s[|s| - 1]);
            CompareTransitive(s[i], last, x);
          }
        }
        AppendSorts(s, x);
      }
    }
  }

  predicate OwnedBy(s: Subnet, owner: Name) {
    s.owner == Some(owner)
  }

  ghost predicate Claims(s: seq<Subnet>, owner: Name) {
    exists x :: x in s && OwnedBy(x, owner)
  }

  /** The entries that do, or do not, belong to `owner`, in table order. */
  function Select(s: seq<Subnet>, owner: Name, owned: bool): (r: seq<Subnet>)
    ensures forall x :: x in r <==> x in s && OwnedBy(x, owner) == owned
    ensures owned ==> |r| <= |s|
  {
    if s == [] then []
    else
      assert s == s[..|s| - 1] + [s[|s| - 1]];
      Select(s[..|s| - 1], owner, owned) + (if OwnedBy(s[|s| - 1], owner) == owned then [s[|s| - 1]] else [])
  }

  lemma SelectLast(s: seq<Subnet>, last: Subnet, owner: Name, owned: bool)
    ensures Select(s + [last], owner, owned) == Select(s, owner, owned) + if OwnedBy(last, owner) == owned then [last]
              else []
  {
    assert (s + [last])[..|s|] == s;
  }

  lemma SelectNothing(owner: Name)
    ensures Select([], owner, true) == [] && Select([], owner, false) == []
  {
  }

  lemma {:induction false} SelectSplits(s: seq<Subnet>, owner: Name)
    ensures multiset(Select(s, owner, true)) + multiset(Select(s, owner, false)) == multiset(s)
  {
    if s == [] {
    } else {
      SelectSplits(s[..|s| - 1], owner);
      assert s == s[..|s| - 1] + [s[|s| - 1]];
    }
  }

  lemma {:induction false} SelectSorted(s: seq<Subnet>, owner: Name, owned: bool)
    requires Sorted(s)
    ensures Sorted(Select(s, owner, owned))
  {
    if s == [] {
    } else {
      var t, last := s[..|s| - 1], s[|s| - 1];
      SelectSorted(t, owner, owned);
      var r := Select(t, owner, owned);
      forall i | 0 <= i < |r| ensures CompareTinc(r[i], last) != Greater {
        assert r[i] in t;
        var k :| 0 <= k < |t| && t[k] == r[i];
        assert CompareTinc(s[k], s[|s| - 1]) != Greater;
      }
    }
  }

  /** The position of the first entry that compares equal; the length when there is none. */
  function Position(s: seq<Subnet>, x: Subnet): (i: nat)
    ensures i <= |s|
    ensures forall j :: 0 <= j < i ==> CompareTinc(s[j], x) != Equal
    ensures i < |s| ==> CompareTinc(s[i], x) == Equal
  {
    if s == [] || CompareTinc(s[0], x) == Equal then 0 else 1 + Position(s[1..], x)
  }

  function Without(s: seq<Subnet>, i: nat): seq<Subnet>
    requires i < |s|
  {
    s[..i] + s[i + 1..]
  }

  /** No two owned entries compare equal. */
  ghost predicate DuplicateFree(s: seq<Subnet>) {
    forall i, j :: 0 <= i < j < |s| && s[i].owner.Some? && s[j].owner.Some? ==> CompareTinc(s[i], s[j]) != Equal
  }

  lemma {:induction false} InsertKeepsDuplicateFree(s: seq<Subnet>, x: Subnet)
    requires DuplicateFree(s) && forall y :: y in s ==> CompareTinc(y, x) != Equal && CompareTinc(x, y) != Equal
    ensures DuplicateFree(Insert(s, x))
  {
    hide CompareTinc;
    if s == [] || CompareTinc(s[|s| - 1], x) != Greater {
    } else {
      var t, last := s[..|s| - 1], s[|s| - 1];
      InsertKeepsDuplicateFree(t, x);
      InsertKeeps(t, x);
      var r := Insert(t, x);
      forall i | 0 <= i < |r| && r[i].owner.Some? && last.owner.Some? ensures CompareTinc(r[i], last) != Equal {
        assert r[i] in r;
        if r[i] != x {
          var k :| 0 <= k < |t| && t[k] == r[i];
          assert s[k] == r[i];
        } else {
          assert last in s;
        }
      }
    }
  }

  lemma {:induction false} SelectKeepsDuplicateFree(s: seq<Subnet>, owner: Name, owned: bool)
    requires DuplicateFree(s)
    ensures DuplicateFree(Select(s, owner, owned))
  {
    hide CompareTinc;
    if s == [] {
    } else {
      var t, last := s[..|s| - 1], s[|s| - 1];
      SelectKeepsDuplicateFree(t, owner, owned);
      var r := Select(t, owner, owned);
      forall i | 0 <= i < |r| && r[i].owner.Some? && last.owner.Some? ensures CompareTinc(r[i], last) != Equal {
        assert r[i] in t;
        var k :| 0 <= k < |t| && t[k] == r[i];
        assert s[k] == r[i];
      }
    }
  }

  class SubnetTable {
    var subnets: seq<Subnet>

    ghost predicate Valid()
      reads this
    {
      Sorted(subnets) && ConsistentOwnership(subnets)
    }

    constructor ()
      ensures Valid() && subnets == []
    {
      subnets := [];
    }

    /** Pushes and sorts; on a sorted table that is one stable insertion. */
    method Add(subnet: Subnet)
      requires Valid() && forall y :: y in subnets ==> SameOwnership(y, subnet)
      modifies this
      ensures Valid() && subnets == Insert(old(subnets), subnet)
      ensures multiset(subnets) == multiset(old(subnets)) + multiset{subnet}
    {
      hide CompareTinc;
      ghost var before := subnets;
      SortedStays(before);
      InsertSorts(before, subnet);
      InsertKeeps(before, subnet);
      subnets := subnets + [subnet];
      assert subnets[..|before|] == before;
      subnets := StableSort(subnets);
      ConsistentInsert(before, subnet, subnets);
    }

    /** An entry that differs in having no owner, or in having one, compares equal, so none is ever put beside
        another. */
    method AddUnique(subnet: Subnet) returns (inserted: bool)
      requires Valid()
      modifies this
      ensures Valid() && inserted == (Position(old(subnets), subnet) == |old(subnets)|)
      ensures subnets == if inserted then Insert(old(subnets), subnet) else old(subnets)
    {
      if Position(subnets, subnet) < |subnets| {
        return false;
      }
      NewIsSeparate(subnets, subnet);
      Add(subnet);
      return true;
    }

    method LookupOwnerSubnet(owner: Name, subnet: Subnet) returns (found: Option<Subnet>)
      ensures var i := Position(subnets, subnet.WithOwner(owner));
              found == if i < |subnets| then Some(subnets[i]) else None
    {
      var i := Position(subnets, subnet.WithOwner(owner));
      found := if i < |subnets| then Some(subnets[i]) else None;
    }

    /** Whether `owner_subnets` has anything to offer. */
    method HasSubnetsOf(owner: Name) returns (found: bool)
      ensures found <==> Claims(subnets, owner)
    {
      found := exists s :: s in subnets && OwnedBy(s, owner);
    }

    method RemoveOwnerSubnet(owner: Name, subnet: Subnet) returns (removed: Option<Subnet>)
      requires Valid()
      modifies this
      ensures Valid()
      ensures var i := Position(old(subnets), subnet.WithOwner(owner));
              if i < |old(subnets)| then removed == Some(old(subnets)[i]) && subnets == Without(old(subnets), i)
              else removed == None && subnets == old(subnets)
    {
      hide CompareTinc;
      var i := Position(subnets, subnet.WithOwner(owner));
      removed := None;
      if i < |subnets| {
        removed := Some(subnets[i]);
        WithoutKeeps(subnets, i);
        subnets := subnets[..i] + subnets[i + 1..];
      }
    }

    /** Splits the table in two passes' worth of pushes: what the owner had, and everything else. */
    method RemoveOwner(owner: Name) returns (removed: seq<Subnet>)
      requires Valid()
      modifies this
      ensures Valid()
      ensures removed == Select(old(subnets), owner, true) && subnets == Select(old(subnets), owner, false)
    {
      hide CompareTinc, Sorted, ConsistentOwnership, Select;
      var all := subnets;
      var retained := [];
      removed := [];
      SelectNothing(owner);
      assert all[..0] == [];
      for i := 0 to |all|
        invariant removed == Select(all[..i], owner, true) && retained == Select(all[..i], owner, false)
      {
        assert all[..i + 1] == all[..i] + [all[i]];
        SelectLast(all[..i], all[i], owner, true);
        SelectLast(all[..i], all[i], owner, false);
        if all[i].owner == Some(owner) {
          removed := removed + [all[i]];
        } else {
          retained := retained + [all[i]];
        }
      }
      assert all[..|all|] == all;
      SelectSorted(all, owner, false);
      SubsetConsistent(all, retained);
      subnets := retained;
    }
  }

  /** Nothing that is absent from a table shares address, prefix and weight with an entry whose owner counts
      differently. */
  lemma NewIsSeparate(s: seq<Subnet>, x: Subnet)
    requires Position(s, x) == |s|
    ensures forall y :: y in s ==> SameOwnership(y, x)
  {
    forall y | y in s ensures SameOwnership(y, x) {
      CompareEqual(y, x);
      assert CompareTinc(y, x) != Equal;
    }
  }

  lemma ConsistentInsert(s: seq<Subnet>, x: Subnet, r: seq<Subnet>)
    requires ConsistentOwnership(s) && forall y :: y in s ==> SameOwnership(y, x)
    requires forall y :: y in r <==> y == x || y in s
    ensures ConsistentOwnership(r)
  {
    forall i, j | 0 <= i < |r| && 0 <= j < |r| ensures SameOwnership(r[i], r[j]) {
      assert r[i] in r && r[j] in r;
    }
  }

  lemma SubsetConsistent(s: seq<Subnet>, r: seq<Subnet>)
    requires ConsistentOwnership(s) && forall y :: y in r ==> y in s
    ensures ConsistentOwnership(r)
  {
    forall i, j | 0 <= i < |r| && 0 <= j < |r| ensures SameOwnership(r[i], r[j]) {
      assert r[i] in r && r[j] in r;
    }
  }

  lemma WithoutKeeps(s: seq<Subnet>, i: nat)
    requires Sorted(s) && ConsistentOwnership(s) && i < |s|
    ensures Sorted(Without(s, i)) && ConsistentOwnership(Without(s, i))
  {
    hide CompareTinc;
    var r := Without(s, i);
    assert forall j :: 0 <= j < |r| ==> r[j] == if j < i then s[j] else s[j + 1];
  }
}
