/** Sorting a finite set by a strict total order: how an ordered map is walked and how a list is sorted by key. */
module Order {
  ghost predicate StrictTotal<T(!new)>(less: (T, T) -> bool) {
    && (forall x :: !less(x, x))
    && (forall x, y, z :: less(x, y) && less(y, z) ==> less(x, z))
    && (forall x, y :: x != y ==> less(x, y) || less(y, x))
  }

  ghost predicate Ascending<T>(s: seq<T>, less: (T, T) -> bool) {
    forall i, j :: 0 <= i < j < |s| ==> less(s[i], s[j])
  }

  ghost predicate IsLeast<T>(s: set<T>, less: (T, T) -> bool, m: T) {
    m in s && forall y :: y in s && y != m ==> less(m, y)
  }

  lemma {:induction false} LeastExists<T(!new)>(s: set<T>, less: (T, T) -> bool) returns (m: T)
    requires StrictTotal(less) && s != {}
    ensures IsLeast(s, less, m)
    decreases |s|
  {
    m :| m in s;
    if s == {m} {
    } else {
      var rest := s - {m};
      assert rest != {};
      var n := LeastExists(rest, less);
      if less(n, m) {
        m := n;
      }
    }
  }

  /** The elements of `s`, least first. */
  function Sort<T(!new, ==)>(s: set<T>, less: (T, T) -> bool): (r: seq<T>)
    requires StrictTotal(less)
    ensures Ascending(r, less)
    ensures forall x :: x in r <==> x in s
    ensures |r| == |s|
    decreases |s|
  {
    if s == {} then [] else
      assert exists m :: IsLeast(s, less, m) by { var m := LeastExists(s, less); }
      var m :| m in s && forall y :: y in s && y != m ==> less(m, y);
      var r := [m] + Sort(s - {m}, less);
      assert forall x :: x in r <==> x == m || x in s - {m};
      r
  }

  /** There is only one ascending list of the members of a set, so sorting does not depend on the sorter. */
  lemma {:induction false} AscendingIsUnique<T(!new)>(a: seq<T>, b: seq<T>, less: (T, T) -> bool)
    requires StrictTotal(less)
    requires Ascending(a, less) && Ascending(b, less)
    requires forall x :: x in a <==> x in b
    ensures a == b
  {
    if a == [] {
      assert forall i :: 0 <= i < |b| ==> b[i] in a;
    } else {
      assert a[0] in b && b != [];
      assert b[0] in a;
      assert a[0] == b[0];
      forall x ensures x in a[1..] <==> x in b[1..] {
        assert x in a <==> x == a[0] || x in a[1..];
        assert x in b <==> x == b[0] || x in b[1..];
        assert a[0] !in a[1..] && b[0] !in b[1..];
      }
      AscendingIsUnique(a[1..], b[1..], less);
      assert a == [a[0]] + a[1..] && b == [b[0]] + b[1..];
    }
  }

  /** A later element of an ascending list goes behind all that have been taken before. */
  lemma LaterElement<T(!new)>(s: seq<T>, i: nat, taken: seq<T>, less: (T, T) -> bool)
    requires StrictTotal(less) && Ascending(s, less) && i < |s| && Ascending(taken, less)
    requires forall t :: t in taken ==> t in s[..i]
    ensures Ascending(taken + [s[i]], less) && s[i] !in s[..i]
  {
    forall k | 0 <= k < |taken| ensures less(taken[k], s[i]) {
      assert taken[k] in s[..i];
      var j :| 0 <= j < i && s[j] == taken[k];
    }
  }
}
