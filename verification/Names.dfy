/** Node names: strings, ordered character by character. */
module Names {
  import opened Order

  datatype Name = Name(text: string)

  predicate IsNameChar(c: char) {
    'a' <= c <= 'z' || 'A' <= c <= 'Z' || '0' <= c <= '9' || c == '_'
  }

  /** The identifiers a node may have. */
  predicate CheckId(id: string) { id != "" && forall i :: 0 <= i < |id| ==> IsNameChar(id[i]) }

  predicate TextLess(a: string, b: string) {
    if b == [] then false
    else if a == [] then true
    else if a[0] != b[0] then a[0] < b[0]
    else TextLess(a[1..], b[1..])
  }

  predicate NameLess(a: Name, b: Name) {
    TextLess(a.text, b.text)
  }

  lemma {:induction false} TextIrreflexive(a: string)
    ensures !TextLess(a, a)
  {
    if a == [] {
    } else {
      TextIrreflexive(a[1..]);
    }
  }

  lemma {:induction false} TextTransitive(a: string, b: string, c: string)
    requires TextLess(a, b) && TextLess(b, c)
    ensures TextLess(a, c)
  {
    if a == [] || a[0] != b[0] || b[0] != c[0] {
    } else {
      TextTransitive(a[1..], b[1..], c[1..]);
    }
  }

  lemma {:induction false} TextConnected(a: string, b: string)
    requires a != b
    ensures TextLess(a, b) || TextLess(b, a)
  {
    if a == [] || b == [] || a[0] != b[0] {
    } else {
      assert a == [a[0]] + a[1..] && b == [b[0]] + b[1..];
      TextConnected(a[1..], b[1..]);
    }
  }

  lemma NameOrder()
    ensures StrictTotal(NameLess)
  {
    forall x: Name ensures !NameLess(x, x) { TextIrreflexive(x.text); }
    forall x, y, z | NameLess(x, y) && NameLess(y, z) ensures NameLess(x, z) {
      TextTransitive(x.text, y.text, z.text);
    }
    forall x: Name, y: Name | x != y ensures NameLess(x, y) || NameLess(y, x) {
      TextConnected(x.text, y.text);
    }
  }

  /** The names of a set in the order in which a map keyed by them is walked. */
  function SortNames(s: set<Name>): (r: seq<Name>)
    ensures Ascending(r, NameLess)
    ensures forall x :: x in r <==> x in s
    ensures |r| == |s|
  {
    NameOrder();
    Sort(s, NameLess)
  }

  lemma NoNames()
    ensures Ascending<Name>([], NameLess)
  {
  }

  /** A later name goes behind all that have been taken before. */
  lemma LaterName(s: seq<Name>, i: nat, taken: seq<Name>)
    requires Ascending(s, NameLess) && i < |s| && Ascending(taken, NameLess) && forall t :: t in taken ==> t in s[..i]
    ensures Ascending(taken + [s[i]], NameLess) && s[i] !in s[..i]
  {
    NameOrder();
    LaterElement(s, i, taken, NameLess);
  }
}
